/** Encoded sizes (Protocol Buffers wire format) of records against the buffers of their readers. */
module WireSizes {
  import opened Bytes
  import opened Ciphers
  import opened Capsules
  import opened Commits

  const BLOCKMAP_COVER := 512
  const RECORD_HEADER_SIZE := 256
  const SPARE_HASH_SPACE := 320
  const MAX_INODE_RECORD_SIZE := 1024

  /** Seven bits a byte. */
  function VarintLen(n: nat): (k: nat)
    ensures k >= 1
  {
    if n < 128 then 1 else 1 + VarintLen(n / 128)
  }

  /** A length-delimited field with a one-byte tag. */
  function Field(len: nat): (k: nat) {
    1 + VarintLen(len) + len
  }

  /** Singular fields with their default value are not sent. */
  function SingularField(len: nat): (k: nat) {
    if len == 0 then 0 else Field(len)
  }

  /** An `int64` field; negative numbers take ten bytes. */
  function Int64Field(v: int): (k: nat) {
    if v == 0 then 0 else if v < 0 then 11 else 1 + VarintLen(v)
  }

  function KindLen(kind: Kind): (k: nat) {
    match kind
    case Meta => 4
    case Directory => 9
    case Inode => 5
    case BlockMap => 8
    case DataBlock => 9
  }

  function PrevSize(prev: seq<Name>): (k: nat) {
    if prev == [] then 0 else PrevSize(prev[..|prev| - 1]) + Field(|prev[|prev| - 1]|)
  }

  /** Header: back links, payload hash, time, kind, reply address of `addr` bytes; the sender is 0. */
  function HeaderSize(r: Record, addr: nat): (k: nat) {
    PrevSize(r.prev) + SingularField(if r.payload == [] then 1 else HASHLEN) + Int64Field(r.time)
      + SingularField(KindLen(r.kind)) + SingularField(addr)
  }

  /** The whole record: header, header hash, a one-byte signature, payload. */
  function RecordSize(r: Record, addr: nat): (k: nat) {
    Field(HeaderSize(r, addr)) + SingularField(HASHLEN) + SingularField(1) + SingularField(|r.payload|)
  }

  /** The smallest buffer any reader allocates for a record of this kind. */
  function ReaderBuffer(kind: Kind, bs: nat): (k: nat) {
    match kind
    case Inode => MAX_INODE_RECORD_SIZE
    case BlockMap => HASHLEN * BLOCKMAP_COVER + RECORD_HEADER_SIZE + SPARE_HASH_SPACE
    case _ => bs + AES_PAD_LEN + RECORD_HEADER_SIZE + SPARE_HASH_SPACE
  }

  function Pow128(k: nat): (r: nat) {
    if k == 0 then 1 else 128 * Pow128(k - 1)
  }

  lemma {:induction false} VarintBound(n: nat, k: nat)
    requires k >= 1 && n < Pow128(k)
    ensures VarintLen(n) <= k
  {
    if n >= 128 {
      assert n / 128 < Pow128(k - 1);
      VarintBound(n / 128, k - 1);
    }
  }

  lemma Powers()
    ensures Pow128(1) == 128 && Pow128(2) == 16384 && Pow128(3) == 2097152 && Pow128(5) == 34359738368
    ensures Pow128(9) == 9223372036854775808
  {
    assert Pow128(4) == 268435456;
    assert Pow128(6) == 4398046511104 && Pow128(7) == 562949953421312 && Pow128(8) == 72057594037927936;
  }

  predicate IsInt64(v: int) {
    -9223372036854775808 <= v < 9223372036854775808
  }

  lemma TimeBound(v: int)
    requires IsInt64(v)
    ensures Int64Field(v) <= 11
  {
    Powers();
    if v > 0 {
      VarintBound(v, 9);
    }
  }

  lemma ShortLens(n: nat)
    ensures n < 128 ==> VarintLen(n) == 1
    ensures 128 <= n < 16384 ==> VarintLen(n) == 2
    ensures 16384 <= n < 2097152 ==> VarintLen(n) == 3
    ensures n < 34359738368 ==> VarintLen(n) <= 5
  {
    if 16384 <= n < 2097152 {
      assert VarintLen(n) == 1 + VarintLen(n / 128) == 2 + VarintLen(n / 128 / 128);
    }
    if n < 34359738368 {
      Powers();
      VarintBound(n, 5);
    }
  }

  lemma {:induction false} PrevSizes(prev: seq<Name>)
    requires |prev| <= 2 && forall i :: 0 <= i < |prev| ==> |prev[i]| == HASHLEN
    ensures PrevSize(prev) == 34 * |prev|
  {
    ShortLens(HASHLEN);
    if prev == [] {
    } else {
      PrevSizes(prev[..|prev| - 1]);
    }
  }

  /** A block map of full cover is the tightest case: it fits exactly if reply address and time field
      together take at most 417 bytes, so for every time stamp up to an address of 406 bytes. */
  lemma FullMapExact(r: Record, addr: nat)
    requires r.kind == BlockMap && |r.payload| == HASHLEN * BLOCKMAP_COVER && IsInt64(r.time)
    requires |r.prev| == 2 && forall i :: 0 <= i < |r.prev| ==> |r.prev[i]| == HASHLEN
    ensures RecordSize(r, addr) <= ReaderBuffer(BlockMap, 0) <==> addr + Int64Field(r.time) <= 417
    ensures Int64Field(r.time) <= 11
  {
    PrevSizes(r.prev);
    TimeBound(r.time);
    ShortLens(HASHLEN);
    ShortLens(8);
    ShortLens(1);
    ShortLens(16384);
    ShortLens(addr);
    ShortLens(HeaderSize(r, addr));
    hide VarintLen, Int64Field, PrevSize;
  }

  /** Buffer bound: in a well-formed capsule, with a reply address of at most 406 bytes, every record
      within the cover and the block size fits the buffer of each of its readers. */
  lemma RecordsFit(w: World, dc: Name, cap: Capsule, n: Name, addr: nat)
    requires Closed(w, dc, cap) && n in cap && IsInt64(cap[n].time) && addr <= 406
    requires cap[n].kind == BlockMap ==> |cap[n].payload| <= HASHLEN * BLOCKMAP_COVER
    requires cap[n].kind == DataBlock ==> |cap[n].payload| <= w.bs + AES_PAD_LEN < 34359738368
    ensures cap[n].kind != Meta ==> RecordSize(cap[n], addr) <= ReaderBuffer(cap[n].kind, w.bs)
  {
    var r := cap[n];
    NamesAreHashes(w, dc, cap);
    assert WellFormed(dc, cap, r);
    if r.kind != Meta {
      hide WellFormed, Closed;
      FitsBuffer(r, addr, w.bs);
    }
  }

  lemma FitsBuffer(r: Record, addr: nat, bs: nat)
    requires IsInt64(r.time) && addr <= 406 && r.kind != Meta && r.kind != Directory
    requires |r.prev| == if r.kind == DataBlock then 1 else 2
    requires forall i :: 0 <= i < |r.prev| ==> |r.prev[i]| == HASHLEN
    requires r.kind == BlockMap ==> |r.payload| <= HASHLEN * BLOCKMAP_COVER
    requires r.kind == DataBlock ==> |r.payload| <= bs + AES_PAD_LEN < 34359738368
    requires r.kind == Inode ==> |r.payload| == INODE_PAYLOAD_SIZE
    ensures RecordSize(r, addr) <= ReaderBuffer(r.kind, bs)
  {
    PrevSizes(r.prev);
    TimeBound(r.time);
    ShortLens(HASHLEN);
    ShortLens(KindLen(r.kind));
    ShortLens(1);
    ShortLens(|r.payload|);
    ShortLens(addr);
    ShortLens(HeaderSize(r, addr));
    hide VarintLen, PrevSize, Int64Field;
  }
}

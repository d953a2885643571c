/** The block map: the list of data-block names that a file version carries, its serialised form,
    the client's view of that form, and the middleware's update of it. */
module BlockmapCodec {
  import opened Bytes
  import opened BlockLayout

  /** The payload of a block-map record: the names one behind the other. */
  function Serialise(m: seq<Hash>): (r: seq<byte>)
    ensures |r| == |m| * HASHLEN
  {
    Flat(HASHLEN, m)
  }

  function Parse(s: seq<byte>): (m: seq<Hash>)
    requires |s| % HASHLEN == 0
    ensures |m| * HASHLEN == |s|
  {
    if s == [] then [] else Parse(s[..|s| - HASHLEN]) + [s[|s| - HASHLEN..]]
  }

  lemma {:induction false} ParseUndoesSerialise(m: seq<Hash>)
    ensures Parse(Serialise(m)) == m
  {
    if m == [] {
    } else {
      var n := |m| - 1;
      ParseUndoesSerialise(m[..n]);
      assert Serialise(m)[..n * HASHLEN] == Serialise(m[..n]);
      assert m == m[..n] + [m[n]];
    }
  }

  /** The loop that rebuilds the list from a payload. */
  method ParsePayload(s: seq<byte>) returns (m: seq<Hash>)
    requires |s| % HASHLEN == 0
    ensures m == Parse(s)
  {
    hide Parse;
    m := [];
    var offset := 0;
    ParseNothing();
    while offset < |s|
      invariant offset <= |s| && offset % HASHLEN == 0
      invariant m == Parse(s[..offset])
    {
      ParseNext(s, offset);
      m := m + [s[offset..offset + HASHLEN]];
      offset := offset + HASHLEN;
    }
    assert s[..offset] == s;
  }

  lemma ParseNothing()
    ensures Parse([]) == []
  {
  }

  lemma ParseNext(s: seq<byte>, offset: nat)
    requires offset + HASHLEN <= |s| && offset % HASHLEN == 0
    ensures Parse(s[..offset + HASHLEN]) == Parse(s[..offset]) + [s[offset..offset + HASHLEN]]
  {
    var t := s[..offset + HASHLEN];
    assert t[..offset] == s[..offset] && t[offset..] == s[offset..offset + HASHLEN];
  }

  /** The loop that copies the list into a freshly allocated buffer. */
  method SerialiseMap(m: seq<Hash>) returns (buf: array<byte>)
    ensures fresh(buf) && buf[..] == Serialise(m)
  {
    buf := new byte[|m| * HASHLEN];
    var offset, i := 0, 0;
    while i < |m|
      invariant 0 <= i <= |m| && offset == i * HASHLEN
      invariant buf[..offset] == Serialise(m[..i])
    {
      forall k | 0 <= k < HASHLEN {
        buf[offset + k] := m[i][k];
      }
      assert m[..i + 1][..i] == m[..i];
      assert buf[..offset + HASHLEN] == buf[..offset] + m[i];
      offset := offset + HASHLEN;
      i := i + 1;
    }
    assert m[..i] == m;
  }

  /** The client's buffer: the payload in front, zeros up to the cover. */
  function ClientBuffer(m: seq<Hash>, cover: nat): (buf: seq<byte>)
    requires |m| <= cover
    ensures |buf| == cover * HASHLEN
  {
    Serialise(m) + Zeros(cover * HASHLEN - |m| * HASHLEN)
  }

  /** `bmCheck`: comparing with `strcmp` against zeros looks at the first byte only. */
  function Entry(buf: Option<seq<byte>>, cover: nat, i: nat): (r: Option<Hash>)
    requires buf.Some? ==> |buf.value| == cover * HASHLEN
  {
    if buf.None? || i >= cover then None else
      var h := buf.value[i * HASHLEN..i * HASHLEN + HASHLEN];
      if h[0] == 0 then None else Some(h)
  }

  /** What the client finds at every index of every map up to the cover. */
  lemma EntryOfMap(m: seq<Hash>, cover: nat, i: nat)
    requires |m| <= cover
    ensures Entry(Some(ClientBuffer(m, cover)), cover, i)
         == if i < |m| && m[i][0] != 0 then Some(m[i]) else None
  {
    if i < |m| {
      FlatSlice(HASHLEN, m, i, 0, HASHLEN);
      assert ClientBuffer(m, cover)[i * HASHLEN..i * HASHLEN + HASHLEN] == m[i];
    }
  }

  /** The three readings of a map agree, that is, index `i` gives entry `i` below the length and
      "absent" above it, exactly when no name in it starts with a zero byte. */
  lemma CodecAgreement(m: seq<Hash>, cover: nat)
    requires |m| <= cover
    ensures Parse(Serialise(m)) == m
    ensures (forall i: nat :: Entry(Some(ClientBuffer(m, cover)), cover, i) == if i < |m| then Some(m[i]) else None)
       <==> forall i :: 0 <= i < |m| ==> m[i][0] != 0
  {
    ParseUndoesSerialise(m);
    forall i: nat {
      EntryOfMap(m, cover, i);
    }
    if forall i: nat :: Entry(Some(ClientBuffer(m, cover)), cover, i) == if i < |m| then Some(m[i]) else None {
      forall i | 0 <= i < |m|
        ensures m[i][0] != 0
      {
        assert Entry(Some(ClientBuffer(m, cover)), cover, i) == Some(m[i]);
      }
    }
  }

  // ---- the middleware's update ----

  /** A data block just pushed: where it lies in the file and the name it got. */
  datatype NewBlock = NewBlock(offset: nat, name: Hash)

  /** The update loop with the inode size the middleware believes in: blocks below it replace an
      entry, others are appended. */
  function ApplyBlocks(bs: nat, isize: nat, m: seq<Hash>, news: seq<NewBlock>): (r: seq<Hash>)
    requires bs > 0 && isize <= Start(bs, |m|)
    ensures |r| >= |m|
  {
    if news == [] then m else
      var p := ApplyBlocks(bs, isize, m, news[..|news| - 1]);
      var b := news[|news| - 1];
      if b.offset < isize then
        BelowEnd(bs, b.offset, |m|);
        p[BlockIndex(bs, b.offset) := b.name]
      else p + [b.name]
  }

  method UpdateMap(bs: nat, isize: nat, m: seq<Hash>, news: seq<NewBlock>) returns (r: seq<Hash>)
    requires bs > 0 && isize <= Start(bs, |m|)
    ensures r == ApplyBlocks(bs, isize, m, news)
  {
    r := m;
    for i := 0 to |news|
      invariant r == ApplyBlocks(bs, isize, m, news[..i])
    {
      assert news[..i + 1][..i] == news[..i];
      if news[i].offset < isize {
        BelowEnd(bs, news[i].offset, |m|);
        r := r[BlockIndex(bs, news[i].offset) := news[i].name];
      } else {
        r := r + [news[i].name];
      }
    }
    assert news[..|news|] == news;
  }

  /** The block indices of the pushed blocks, and their names. */
  function Slots(bs: nat, news: seq<NewBlock>): (r: seq<nat>)
    requires bs > 0
    ensures |r| == |news|
  {
    seq(|news|, j requires 0 <= j < |news| => BlockIndex(bs, news[j].offset))
  }

  function Names(news: seq<NewBlock>): (r: seq<Hash>)
    ensures |r| == |news|
  {
    seq(|news|, j requires 0 <= j < |news| => news[j].name)
  }

  /** The update a block map is for: entry `i` is the new name if block `i` was pushed, the old entry
      otherwise, and there are no other entries. */
  ghost predicate IndexedUpdate(m: seq<Hash>, slots: seq<nat>, names: seq<Hash>, r: seq<Hash>)
    requires |slots| == |names|
  {
    && |m| <= |r|
    && (forall j :: 0 <= j < |slots| ==> slots[j] < |r| && r[slots[j]] == names[j])
    && (forall i :: 0 <= i < |r| && i !in slots ==> i < |m| && r[i] == m[i])
  }

  /** A flush emits its blocks in increasing order. */
  ghost predicate Ascending(slots: seq<nat>) {
    forall i, j :: 0 <= i < j < |slots| ==> slots[i] < slots[j]
  }

  /** The blocks beyond the first `n` form one run that starts at `n`. */
  ghost predicate NoHole(n: nat, slots: seq<nat>) {
    forall j :: 0 <= j < |slots| && slots[j] >= n ==> slots[j] == n || FollowsNeighbour(slots, j)
  }

  ghost predicate FollowsNeighbour(slots: seq<nat>, j: nat)
    requires j < |slots|
  {
    j > 0 && slots[j] == slots[j - 1] + 1
  }

  /** The update loop on block indices: the first `known` blocks are replaced, others appended. */
  function ApplySlots(known: nat, m: seq<Hash>, slots: seq<nat>, names: seq<Hash>): (r: seq<Hash>)
    requires |slots| == |names| && known <= |m|
    ensures |r| >= |m|
  {
    if slots == [] then m else
      var n := |slots| - 1;
      var p := ApplySlots(known, m, slots[..n], names[..n]);
      if slots[n] < known then p[slots[n] := names[n]] else p + [names[n]]
  }

  lemma {:induction false} OffsetsAreSlots(bs: nat, known: nat, m: seq<Hash>, news: seq<NewBlock>)
    requires bs > 0 && known <= |m| && Start(bs, known) <= Start(bs, |m|)
    ensures ApplyBlocks(bs, Start(bs, known), m, news) == ApplySlots(known, m, Slots(bs, news), Names(news))
    decreases |news|
  {
    hide Start, BlockIndex;
    if news == [] {
    } else {
      var n := |news| - 1;
      OffsetsAreSlots(bs, known, m, news[..n]);
      assert Slots(bs, news)[..n] == Slots(bs, news[..n]);
      assert Names(news)[..n] == Names(news[..n]);
      BelowEnd(bs, news[n].offset, known);
    }
  }

  /** With the stored size loaded, the update loop is the indexed update, on every map and every
      flush of ascending blocks without a hole. */
  lemma LoadedSizeUpdates(bs: nat, m: seq<Hash>, news: seq<NewBlock>)
    requires bs > 0 && Ascending(Slots(bs, news)) && NoHole(|m|, Slots(bs, news))
    ensures var r := ApplyBlocks(bs, Start(bs, |m|), m, news);
            IndexedUpdate(m, Slots(bs, news), Names(news), r) && |r| == Reach(|m|, Slots(bs, news))
  {
    hide Start, BlockIndex, IndexedUpdate, Reach, ApplySlots, ApplyBlocks, Ascending, NoHole;
    OffsetsAreSlots(bs, |m|, m, news);
    KnownSlotsUpdate(m, Slots(bs, news), Names(news));
  }

  /** The first blocks of a flush are ascending and without a hole, too. */
  lemma PrefixOrdered(m: nat, slots: seq<nat>, n: nat)
    requires n <= |slots| && Ascending(slots) && NoHole(m, slots)
    ensures Ascending(slots[..n]) && NoHole(m, slots[..n])
  {
    var s := slots[..n];
    forall j | 0 <= j < n && s[j] >= m
      ensures s[j] == m || FollowsNeighbour(s, j)
    {
      assert slots[j] == m || FollowsNeighbour(slots, j);
    }
  }

  /** The length of a map of `m` entries after a flush of `slots`. */
  function Reach(m: nat, slots: seq<nat>): (n: nat)
    ensures n >= m
  {
    if slots != [] && slots[|slots| - 1] >= m then slots[|slots| - 1] + 1 else m
  }

  /** The last block of a flush lies in the map the others leave, or directly behind it. */
  lemma LastSlotFits(m: nat, slots: seq<nat>)
    requires slots != [] && Ascending(slots) && NoHole(m, slots)
    ensures var n := |slots| - 1;
            && slots[n] !in slots[..n]
            && slots[n] <= Reach(m, slots[..n]) && (slots[n] >= m ==> slots[n] == Reach(m, slots[..n]))
            && Reach(m, slots) == Reach(m, slots[..n]) + if slots[n] < m then 0 else 1
  {
    var n := |slots| - 1;
    if slots[n] >= m {
      assert slots[n] == m || FollowsNeighbour(slots, n);
    }
    assert n > 0 ==> slots[..n][n - 1] == slots[n - 1] < slots[n];
  }

  lemma {:induction false} KnownSlotsUpdate(m: seq<Hash>, slots: seq<nat>, names: seq<Hash>)
    requires |slots| == |names| && Ascending(slots) && NoHole(|m|, slots)
    ensures var r := ApplySlots(|m|, m, slots, names);
            IndexedUpdate(m, slots, names, r) && |r| == Reach(|m|, slots)
    decreases |slots|
  {
    hide Ascending, NoHole, Reach, IndexedUpdate;
    if slots == [] {
      NothingUpdated(m);
    } else {
      var n := |slots| - 1;
      PrefixOrdered(|m|, slots, n);
      LastSlotFits(|m|, slots);
      KnownSlotsUpdate(m, slots[..n], names[..n]);
      var p := ApplySlots(|m|, m, slots[..n], names[..n]);
      UpdateOneMore(m, slots[..n], names[..n], p, slots[n], names[n]);
      assert slots == slots[..n] + [slots[n]] && names == names[..n] + [names[n]];
    }
  }

  lemma NothingUpdated(m: seq<Hash>)
    ensures IndexedUpdate(m, [], [], m) && Reach(|m|, []) == |m|
  {
  }

  lemma UpdateOneMore(m: seq<Hash>, slots: seq<nat>, names: seq<Hash>, p: seq<Hash>, slot: nat, name: Hash)
    requires |slots| == |names| && slot !in slots && slot <= |p|
    requires IndexedUpdate(m, slots, names, p)
    ensures IndexedUpdate(m, slots + [slot], names + [name], if slot < |p| then p[slot := name] else p + [name])
  {
    var r := if slot < |p| then p[slot := name] else p + [name];
    forall i | 0 <= i < |r| && i !in slots + [slot]
      ensures i < |m| && r[i] == m[i]
    {
      assert slot in slots + [slot];
      assert i !in slots;
    }
  }

  /** With size 0, which is what the middleware runs it with, the loop only ever appends. */
  lemma {:induction false} ZeroSizeAppends(bs: nat, m: seq<Hash>, news: seq<NewBlock>)
    requires bs > 0
    ensures ApplyBlocks(bs, 0, m, news) == m + Names(news)
    decreases |news|
  {
    if news == [] {
    } else {
      var n := |news| - 1;
      ZeroSizeAppends(bs, m, news[..n]);
      assert Names(news) == Names(news[..n]) + [news[n].name];
    }
  }

  /** So as written the update is the indexed one exactly for a flush that pushes the blocks
      directly behind the map and nothing else. */
  lemma WrittenUpdateExact(bs: nat, m: seq<Hash>, news: seq<NewBlock>)
    requires bs > 0
    requires forall h :: h in m ==> h !in Names(news)
    requires forall i, j :: 0 <= i < j < |news| ==> Names(news)[i] != Names(news)[j]
    ensures IndexedUpdate(m, Slots(bs, news), Names(news), ApplyBlocks(bs, 0, m, news))
       <==> forall j :: 0 <= j < |news| ==> Slots(bs, news)[j] == |m| + j
  {
    ZeroSizeAppends(bs, m, news);
    AppendExact(m, Slots(bs, news), Names(news));
  }

  lemma InOneOfTwo(m: seq<Hash>, names: seq<Hash>, k: nat)
    requires k < |m + names|
    ensures if k < |m| then (m + names)[k] in m else (m + names)[k] == names[k - |m|]
  {
  }

  lemma AppendExact(m: seq<Hash>, slots: seq<nat>, names: seq<Hash>)
    requires |slots| == |names|
    requires forall h :: h in m ==> h !in names
    requires forall i, j :: 0 <= i < j < |names| ==> names[i] != names[j]
    ensures IndexedUpdate(m, slots, names, m + names) <==> forall j :: 0 <= j < |slots| ==> slots[j] == |m| + j
  {
    var r := m + names;
    if forall j :: 0 <= j < |slots| ==> slots[j] == |m| + j {
      forall i | |m| <= i < |r|
        ensures i in slots
      {
        assert slots[i - |m|] == i;
      }
    }
    if IndexedUpdate(m, slots, names, r) {
      forall j | 0 <= j < |slots|
        ensures slots[j] == |m| + j
      {
        assert r[slots[j]] == names[j];
        assert names[j] in names && names[j] !in m;
        InOneOfTwo(m, names, slots[j]);
      }
    }
  }

  /** A second flush that rewrites block 0 of a one-block file leaves the stale name in place. */
  lemma RewriteIsLost(bs: nat, stale: Hash, fresh': Hash)
    requires bs > 0 && stale != fresh'
    ensures ApplyBlocks(bs, 0, [stale], [NewBlock(0, fresh')]) == [stale, fresh']
    ensures !IndexedUpdate([stale], [0], [fresh'], [stale, fresh'])
  {
    ZeroSizeAppends(bs, [stale], [NewBlock(0, fresh')]);
    assert [0][0] == 0;
  }
}

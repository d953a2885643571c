/** What a client that loads a stored version finds. */
module Reloads {
  import opened Bytes
  import opened BlockLayout
  import opened BlockmapCodec
  import opened Ciphers
  import opened Capsules
  import opened Commits
  import opened BlockCache

  /** A name that the client takes as present. */
  ghost predicate Passes(h: Hash) {
    h[0] != 0
  }

  /** Block `i` of version `v`: the decrypted record behind entry `i` of its map, and zeros where the
      map ends or its name is taken as absent; nothing for a record longer than a block. */
  ghost function NamedBlock(w: World, cap: Capsule, v: Name, key: seq<byte>, bs: nat, i: nat): (r: Option<seq<byte>>)
    requires Readable(cap, v)
  {
    var m := Entries(cap, v);
    if i >= |m| || !Passes(m[i]) then Some(Zeros(bs)) else
      var p := cap[m[i]].payload;
      if |p| > bs + AES_PAD_LEN then None else Some(Fit(bs, w.cipher.dec(key, p)))
  }

  /** Block `i` as a handle on version `v` shows it, if it does not fail. */
  ghost function ShownBlock(w: World, st: Store, dc: Name, v: Name, key: seq<byte>, cover: nat, bs: nat,
                            i: nat): (r: Option<seq<byte>>)
    requires v in CapsuleOf(st, dc) && InodeShape(CapsuleOf(st, dc)[v])
  {
    Fetched(w, st, dc, key, LoadedMap(st, dc, CapsuleOf(st, dc)[v].prev[1], cover), cover, bs, i)
  }

  lemma {:induction false} SerialiseUndoesParse(s: seq<byte>)
    requires |s| % HASHLEN == 0
    ensures Serialise(Parse(s)) == s
  {
    if s == [] {
    } else {
      SerialiseUndoesParse(s[..|s| - HASHLEN]);
      FlatAppend(HASHLEN, Parse(s[..|s| - HASHLEN]), s[|s| - HASHLEN..]);
      assert s == s[..|s| - HASHLEN] + s[|s| - HASHLEN..];
    }
  }

  /** A stored version in a well-formed store. */
  lemma VersionParts(w: World, st: Store, dc: Name, v: Name)
    requires Inv(w, st) && Has(CapsuleOf(st, dc), Inode, v)
    ensures var cap := CapsuleOf(st, dc);
            && dc in st.capsules && Readable(cap, v) && cap[v].prev[1] != []
            && Lookup(st, dc, cap[v].prev[1]) == Some(cap[cap[v].prev[1]])
  {
    hide WellFormed, Readable;
    var cap := CapsuleOf(st, dc);
    ClosedReadable(w, dc, cap, v);
    NamesAreHashes(w, dc, cap);
    MapParts(cap, v);
  }

  /** The client can load the block map of a stored version exactly when the map is within the cover;
      otherwise it is left with zeros. */
  lemma MapLoadsExact(w: World, st: Store, dc: Name, v: Name, cover: nat)
    requires Inv(w, st) && Has(CapsuleOf(st, dc), Inode, v)
    ensures var cap := CapsuleOf(st, dc);
            && Readable(cap, v)
            && (ReadData(st, dc, cap[v].prev[1], cover * HASHLEN).Some? <==> |Entries(cap, v)| <= cover)
            && LoadedMap(st, dc, cap[v].prev[1], cover) == Some(
                 if |Entries(cap, v)| <= cover then ClientBuffer(Entries(cap, v), cover) else Zeros(cover * HASHLEN))
  {
    hide Inv, Readable, Parse, Serialise;
    VersionParts(w, st, dc, v);
    MapParts(CapsuleOf(st, dc), v);
    SerialiseUndoesParse(CapsuleOf(st, dc)[CapsuleOf(st, dc)[v].prev[1]].payload);
  }

  lemma EntryOfZeros(cover: nat, i: nat)
    ensures Entry(Some(Zeros(cover * HASHLEN)), cover, i) == None
  {
  }

  lemma ShownWithin(w: World, st: Store, dc: Name, v: Name, key: seq<byte>, cover: nat, bs: nat, i: nat)
    requires dc in st.capsules && Readable(st.capsules[dc], v) && |Entries(st.capsules[dc], v)| <= cover
    requires LoadedMap(st, dc, st.capsules[dc][v].prev[1], cover)
          == Some(ClientBuffer(Entries(st.capsules[dc], v), cover))
    ensures ShownBlock(w, st, dc, v, key, cover, bs, i) == NamedBlock(w, st.capsules[dc], v, key, bs, i)
  {
    hide ClientBuffer, Entry, LoadedMap;
    EntryOfMap(Entries(st.capsules[dc], v), cover, i);
  }

  lemma ShownBeyond(w: World, st: Store, dc: Name, v: Name, key: seq<byte>, cover: nat, bs: nat, i: nat)
    requires dc in st.capsules && Readable(st.capsules[dc], v)
    requires LoadedMap(st, dc, st.capsules[dc][v].prev[1], cover) == Some(Zeros(cover * HASHLEN))
    ensures ShownBlock(w, st, dc, v, key, cover, bs, i) == Some(Zeros(bs))
  {
    hide LoadedMap;
    EntryOfZeros(cover, i);
  }

  /** What a handle on a stored version shows. Within the cover it shows the version's blocks; beyond
      it, once the failed load of the map is behind it, zeros. So it shows the version exactly when the
      map is within the cover or there is nothing but zeros to show. */
  lemma ShownExact(w: World, st: Store, dc: Name, v: Name, key: seq<byte>, cover: nat, bs: nat)
    requires Inv(w, st) && Has(CapsuleOf(st, dc), Inode, v)
    ensures var cap := CapsuleOf(st, dc);
            && Readable(cap, v)
            && (forall i: nat :: ShownBlock(w, st, dc, v, key, cover, bs, i)
                  == if |Entries(cap, v)| <= cover then NamedBlock(w, cap, v, key, bs, i) else Some(Zeros(bs)))
            && ((forall i: nat :: ShownBlock(w, st, dc, v, key, cover, bs, i) == NamedBlock(w, cap, v, key, bs, i)) <==>
                  |Entries(cap, v)| <= cover || forall i: nat :: NamedBlock(w, cap, v, key, bs, i) == Some(Zeros(bs)))
  {
    hide Inv, Readable, ShownBlock, NamedBlock, LoadedMap, ReadData, ClientBuffer;
    VersionParts(w, st, dc, v);
    MapLoadsExact(w, st, dc, v, cover);
    var cap := CapsuleOf(st, dc);
    MapParts(cap, v);
    forall i: nat
      ensures ShownBlock(w, st, dc, v, key, cover, bs, i)
           == if |Entries(cap, v)| <= cover then NamedBlock(w, cap, v, key, bs, i) else Some(Zeros(bs))
    {
      if |Entries(cap, v)| <= cover {
        ShownWithin(w, st, dc, v, key, cover, bs, i);
      } else {
        ShownBeyond(w, st, dc, v, key, cover, bs, i);
      }
    }
  }
}

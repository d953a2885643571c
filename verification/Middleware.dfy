/** The middleware and the record server behind it, as one object: the index of latest versions and
    the directories of records. Each method is the code's, proved against `Capsules`. */
module Middleware {
  import opened Bytes
  import opened BlockmapCodec
  import opened Ciphers
  import opened Capsules

  class Backend {
    const w: World
    var index: map<Name, Name>
    var capsules: map<Name, Capsule>

    ghost function State(): (st: Store)
      reads this
    {
      Store(index, capsules)
    }

    constructor (w: World)
      ensures this.w == w && State() == Store(map[], map[])
    {
      this.w := w;
      index, capsules := map[], map[];
    }

    // ---- the record server ----

    /** A write creates a directory only for the record that bears its name. `ok` is the file system's answer. */
    method WriteRecord(dc: Name, name: Name, r: Record, ok: bool) returns (ret: int)
      modifies this`capsules
      ensures var c := WriteOne(old(capsules), dc, name, r, ok);
              if c.None? then ret == ERR_IO && capsules == old(capsules) else ret == NO_ERR && capsules == c.value
      ensures ret == NO_ERR <==> ok && (dc in old(capsules) || dc == name)
      ensures ret == NO_ERR ==> dc in capsules && name in capsules[dc] && capsules[dc][name] == r
    {
      if dc !in capsules && dc != name {
        return ERR_IO;
      }
      if !ok {
        return ERR_IO;
      }
      var dir := if dc in capsules then capsules[dc] else map[];
      capsules := capsules[dc := dir[name := r]];
      ret := NO_ERR;
    }

    method ReadRecord(dc: Name, name: Name) returns (r: Option<Record>)
      ensures r == Lookup(State(), dc, name)
    {
      if dc in capsules && name in capsules[dc] {
        r := Some(capsules[dc][name]);
      } else {
        r := None;
      }
    }

    // ---- the middleware ----

    method CreateNew(time: int, ok: bool) returns (ret: int, dc: Name)
      modifies this
      ensures dc == w.nameOf(MetaRecord(time))
      ensures Outcome(State(), ret) == CreateStep(w, old(State()), time, ok)
      ensures ret == (if ok then NO_ERR else ERR_IO) && (!ok ==> State() == old(State()))
      ensures ok ==> index == old(index)[dc := []] && dc in capsules && dc in capsules[dc]
                     && capsules[dc][dc] == Record(Meta, [], [], time)
    {
      var r := MetaRecord(time);
      dc := w.nameOf(r);
      ret := WriteRecord(dc, dc, r, ok);
      if ret < 0 {
        return;
      }
      index := index[dc := []];
    }

    method GetInodeName(dc: Name) returns (ret: int, v: Name)
      ensures ret == (if dc in index then NO_ERR else ERR_NOT_FOUND) && v == Latest(State(), dc)
    {
      if dc !in index {
        return ERR_NOT_FOUND, [];
      }
      return NO_ERR, index[dc];
    }

    /** The base of a request: nothing for a new file, otherwise read from the stored version. */
    method ReadBase(dc: Name, latest: Name, aesKey: seq<byte>) returns (r: Option<Base>)
      requires latest == Latest(State(), dc) && Parses(State(), dc)
      ensures r == BaseOf(State(), dc, aesKey)
      ensures latest == [] ==> r == Some(Base([], [], [], aesKey))
      ensures latest != [] && r.Some? ==>
                && dc in capsules && latest in capsules[dc] && InodeShape(capsules[dc][latest])
                && var ino := capsules[dc][latest];
                   && r.value.bm == ino.prev[1] && r.value.bm in capsules[dc]
                   && BlockMapShape(capsules[dc][r.value.bm])
                   && r.value.data == capsules[dc][r.value.bm].prev[1]
                   && r.value.entries == Parse(capsules[dc][r.value.bm].payload)
                   && r.value.key == ino.payload[SIZE_LEN..SIZE_LEN + AES_KEY_LEN]
    {
      if latest == [] {
        return Some(Base([], [], [], aesKey));
      }
      var ino := ReadRecord(dc, latest);
      if ino.None? {
        return None;
      }
      var bm := ReadRecord(dc, ino.value.prev[1]);
      if bm.None? {
        return None;
      }
      var entries := ParsePayload(bm.value.payload);
      var key := ino.value.payload[SIZE_LEN..SIZE_LEN + AES_KEY_LEN];
      r := Some(Base(ino.value.prev[1], bm.value.prev[1], entries, key));
    }

    /** The push loop: composes and writes one data record per descriptor, stopping at a failure. */
    method PushBlocks(dc: Name, latestData: Name, descs: seq<Desc>, clock: nat -> int, ok: nat -> bool)
      returns (ret: int, news: seq<NewBlock>)
      modifies this`capsules
      ensures var data := DataRecords(w, Or(latestData, dc), descs, clock);
              var p := WriteAll(w, old(capsules), dc, data, ok);
              && capsules == p.caps
              && (ret == NO_ERR <==> p.done == |descs|) && (ret != NO_ERR ==> ret == ERR_IO)
              && (ret == NO_ERR ==> |news| == |descs| && Names(news) == NamesOf(w, data))
              && (ret == NO_ERR ==> forall j :: 0 <= j < |news| ==> news[j].offset == descs[j].offset)
    {
      hide WriteAll, WriteOne, DataRecords;
      news := [];
      ret := NO_ERR;
      var name: Name := [];
      var i := 0;
      ghost var all := DataRecords(w, Or(latestData, dc), descs, clock);
      assert all[..0] == [];
      NoWrites(w, capsules, dc, ok);
      while i < |descs|
        invariant 0 <= i <= |descs| == |all| && |news| == i && ret == NO_ERR
        invariant name == if i == 0 then [] else w.nameOf(all[i - 1])
        invariant WriteAll(w, old(capsules), dc, all[..i], ok) == Progress(capsules, i)
        invariant forall j :: 0 <= j < i ==> news[j] == NewBlock(descs[j].offset, w.nameOf(all[j]))
      {
        var prev := if name == [] then Or(latestData, dc) else name;
        var r := Record(DataBlock, [prev], descs[i].data, clock(i));
        DataRecordAt(w, Or(latestData, dc), descs, clock, i);
        assert r == all[i];
        WriteAllNext(w, old(capsules), dc, all, ok, i);
        name := w.nameOf(r);
        ret := WriteRecord(dc, name, r, ok(i));
        if ret < 0 {
          WriteAllStops(w, old(capsules), dc, all, ok, i + 1);
          return;
        }
        news := news + [NewBlock(descs[i].offset, name)];
        i := i + 1;
      }
      assert all[..i] == all;
    }

    method Modify(dc: Name, descs: seq<Desc>, inodeHash: Name, aesKey: seq<byte>, clock: nat -> int, ok: nat -> bool)
      returns (ret: int)
      requires w.bs > 0 && descs != [] && |aesKey| == AES_KEY_LEN && Parses(State(), dc)
      modifies this
      ensures Outcome(State(), ret) == ModifyStep(w, old(State()), dc, descs, inodeHash, aesKey, clock, ok)
    {
      hide WriteAll, WriteOne, DataRecords, BaseOf, Batch, ApplyBlocks, Serialise, LittleEndian, ModifyStep, Parses;
      ModifyUnfolds(w, State(), dc, descs, inodeHash, aesKey, clock, ok);
      TouchedBase(State(), dc, aesKey);
      var latest := if dc in index then index[dc] else [];
      if dc !in index {
        index := index[dc := []];
      }
      assert State() == Touch(old(State()), dc);
      if inodeHash != latest {
        return ERR_NOT_FOUND;
      }
      var base := ReadBase(dc, latest, aesKey);
      if base.None? {
        return ERR_NOT_FOUND;
      }
      var b := base.value;
      ghost var rs := Batch(w, dc, latest, b, descs, clock);
      BatchParts(w, dc, latest, b, descs, clock);

      var news;
      ret, news := PushBlocks(dc, b.data, descs, clock, ok);
      if ret < 0 {
        WriteAllStops(w, old(capsules), dc, rs, ok, |descs|);
        return;
      }

      ret := PublishVersion(dc, latest, b, descs, news, clock, ok, old(capsules));
      if ret < 0 {
        return;
      }
    }

    /** The second half of a request: write the block map, write the inode, move the index. */
    method PublishVersion(dc: Name, latest: Name, b: Base, descs: seq<Desc>, news: seq<NewBlock>, clock: nat -> int,
                          ok: nat -> bool, ghost before: map<Name, Capsule>) returns (ret: int)
      requires w.bs > 0 && descs != [] && |news| == |descs|
      requires var data := DataRecords(w, Or(b.data, dc), descs, clock);
               Names(news) == NamesOf(w, data) && WriteAll(w, before, dc, data, ok) == Progress(capsules, |descs|)
      modifies this
      ensures var rs := Batch(w, dc, latest, b, descs, clock);
              var p := WriteAll(w, before, dc, rs, ok);
              && capsules == p.caps
              && if p.done < |rs| then ret == ERR_IO && index == old(index)
                 else ret == NO_ERR && index == old(index)[dc := w.nameOf(rs[|rs| - 1])]
    {
      hide WriteAll, WriteOne, DataRecords, Batch, ApplyBlocks, Serialise, LittleEndian;
      var n, isize := |descs|, 0;
      ghost var rs := Batch(w, dc, latest, b, descs, clock);
      ghost var data := DataRecords(w, Or(b.data, dc), descs, clock);
      BatchParts(w, dc, latest, b, descs, clock);
      assert news[n - 1].name == Names(news)[n - 1] == w.nameOf(data[n - 1]);
      ZeroSizeAppends(w.bs, b.entries, news);
      var entries := UpdateMap(w.bs, isize, b.entries, news);
      var buf := SerialiseMap(entries);
      var bm := Record(BlockMap, [if b.bm != [] then b.bm else dc, news[n - 1].name], buf[..], clock(n));
      assert bm == MapRecord(w, dc, b, data, clock(n)) == rs[n];
      WriteAllNext(w, before, dc, rs, ok, n);
      ret := WriteRecord(dc, w.nameOf(bm), bm, ok(n));
      if ret < 0 {
        WriteAllStops(w, before, dc, rs, ok, n + 1);
        return;
      }

      if isize <= n * w.bs {
        isize := n * w.bs;
      }
      var ino := Record(Inode, [if latest != [] then latest else dc, w.nameOf(bm)],
                        LittleEndian(isize, SIZE_LEN) + w.cipher.enc(w.mwKey, b.key), clock(n + 1));
      assert ino == rs[n + 1];
      WriteAllNext(w, before, dc, rs, ok, n + 1);
      assert rs[..n + 2] == rs;
      ret := WriteRecord(dc, w.nameOf(ino), ino, ok(n + 1));
      if ret < 0 {
        return;
      }
      index := index[dc := w.nameOf(ino)];
    }

    /** The storage backend's entry: a flush without dirty blocks asks the middleware for nothing. */
    method WriteBlocks(dc: Name, descs: seq<Desc>, inodeHash: Name, aesKey: seq<byte>, clock: nat -> int,
                       ok: nat -> bool)
      returns (ret: int)
      requires w.bs > 0 && |aesKey| == AES_KEY_LEN && Parses(State(), dc)
      modifies this
      ensures if descs == [] then ret == NO_ERR && State() == old(State())
              else Outcome(State(), ret) == ModifyStep(w, old(State()), dc, descs, inodeHash, aesKey, clock, ok)
    {
      if |descs| == 0 {
        return NO_ERR;
      }
      ret := Modify(dc, descs, inodeHash, aesKey, clock, ok);
    }
  }

  lemma ModifyUnfolds(w: World, st: Store, dc: Name, descs: seq<Desc>, inodeHash: Name, aesKey: seq<byte>,
                      clock: nat -> int, ok: nat -> bool)
    requires descs != []
    ensures var r, st1 := ModifyStep(w, st, dc, descs, inodeHash, aesKey, clock, ok), Touch(st, dc);
            var b := BaseOf(st, dc, aesKey);
            if inodeHash != Latest(st, dc) || b.None? then r == Outcome(st1, ERR_NOT_FOUND) else
              var rs := Batch(w, dc, Latest(st, dc), b.value, descs, clock);
              var p := WriteAll(w, st.capsules, dc, rs, ok);
              && p.done <= |rs| == |descs| + 2
              && r == if p.done < |rs| then Outcome(Store(st1.index, p.caps), ERR_IO)
                      else Outcome(Store(st1.index[dc := w.nameOf(rs[|rs| - 1])], p.caps), NO_ERR)
  {
    hide WriteAll, BaseOf, Batch;
  }

  lemma TouchedBase(st: Store, dc: Name, aesKey: seq<byte>)
    ensures BaseOf(Touch(st, dc), dc, aesKey) == BaseOf(st, dc, aesKey)
    ensures Parses(Touch(st, dc), dc) == Parses(st, dc) && Latest(Touch(st, dc), dc) == Latest(st, dc)
  {
  }

  lemma BatchParts(w: World, dc: Name, latest: Name, b: Base, descs: seq<Desc>, clock: nat -> int)
    requires descs != []
    ensures var rs, n := Batch(w, dc, latest, b, descs, clock), |descs|;
            var data := DataRecords(w, Or(b.data, dc), descs, clock);
            && rs[..n] == data && rs[n] == MapRecord(w, dc, b, data, clock(n))
            && rs[n + 1] == InodeRecord(w, latest, dc, b, n, w.nameOf(rs[n]), clock(n + 1))
  {
  }

  lemma NoWrites(w: World, caps: map<Name, Capsule>, dc: Name, ok: nat -> bool)
    ensures WriteAll(w, caps, dc, [], ok) == Progress(caps, 0)
  {
  }

  lemma WriteAllNext(w: World, caps: map<Name, Capsule>, dc: Name, rs: seq<Record>, ok: nat -> bool, i: nat)
    requires i < |rs| && WriteAll(w, caps, dc, rs[..i], ok).done == i
    ensures var p := WriteAll(w, caps, dc, rs[..i], ok);
            var c := WriteOne(p.caps, dc, w.nameOf(rs[i]), rs[i], ok(i));
            WriteAll(w, caps, dc, rs[..i + 1], ok) == if c.None? then p else Progress(c.value, i + 1)
  {
    assert rs[..i + 1][..i] == rs[..i];
  }

  /** A batch that failed within its first `n` records is not written any further. */
  lemma {:induction false} WriteAllStops(w: World, caps: map<Name, Capsule>, dc: Name, rs: seq<Record>,
                                         ok: nat -> bool, n: nat)
    requires n <= |rs| && WriteAll(w, caps, dc, rs[..n], ok).done < n
    ensures WriteAll(w, caps, dc, rs, ok) == WriteAll(w, caps, dc, rs[..n], ok)
    decreases |rs|
  {
    if n == |rs| {
      assert rs[..n] == rs;
    } else {
      var m := |rs| - 1;
      assert rs[..m][..n] == rs[..n];
      WriteAllStops(w, caps, dc, rs[..m], ok, n);
    }
  }
}

/** The block map over many sessions, if the middleware loaded the stored size before it updates the
    map, which its update loop is written for. What it does without is in `Histories`. */
module MapSessions {
  import opened Bytes
  import opened BlockLayout
  import opened BlockmapCodec

  /** The size a session leaves: the one it found, or the end of the furthest block it pushed. */
  function SizeAfter(bs: nat, size: nat, news: seq<NewBlock>): (r: nat) {
    if news == [] then size else
      var p, end := SizeAfter(bs, size, news[..|news| - 1]), news[|news| - 1].offset + bs;
      if p < end then end else p
  }

  /** What a flush of a file with `known` blocks sends: whole blocks, ascending, without a hole. */
  ghost predicate Orderly(bs: nat, known: nat, news: seq<NewBlock>)
    requires bs > 0
  {
    && Ascending(Slots(bs, news)) && NoHole(known, Slots(bs, news))
    && forall j :: 0 <= j < |news| ==> news[j].offset == Start(bs, Slots(bs, news)[j])
  }

  lemma PrefixOrderly(bs: nat, known: nat, news: seq<NewBlock>, n: nat)
    requires bs > 0 && n <= |news| && Orderly(bs, known, news)
    ensures Orderly(bs, known, news[..n]) && Slots(bs, news[..n]) == Slots(bs, news)[..n]
  {
    hide Ascending, NoHole, BlockIndex, Start;
    assert Slots(bs, news[..n]) == Slots(bs, news)[..n];
    PrefixOrdered(known, Slots(bs, news), n);
  }

  lemma {:induction false} SizeReaches(bs: nat, known: nat, news: seq<NewBlock>)
    requires bs > 0 && Orderly(bs, known, news)
    ensures SizeAfter(bs, Start(bs, known), news) == Start(bs, Reach(known, Slots(bs, news)))
    decreases |news|
  {
    hide Ascending, NoHole, BlockIndex, Start;
    if news == [] {
    } else {
      var n, slots := |news| - 1, Slots(bs, news);
      PrefixOrderly(bs, known, news, n);
      SizeReaches(bs, known, news[..n]);
      LastSlotFits(known, slots);
      StartNext(bs, slots[n]);
      if slots[n] < known {
        StartLe(bs, slots[n] + 1, Reach(known, slots[..n]));
      }
    }
  }

  /** One session keeps what the next one relies on: the size it leaves is that of the map it leaves. */
  lemma SizeFollowsMap(bs: nat, m: seq<Hash>, news: seq<NewBlock>)
    requires bs > 0 && Orderly(bs, |m|, news)
    ensures var r := ApplyBlocks(bs, Start(bs, |m|), m, news);
            IndexedUpdate(m, Slots(bs, news), Names(news), r) && SizeAfter(bs, Start(bs, |m|), news) == Start(bs, |r|)
  {
    hide Ascending, NoHole, BlockIndex, Start, ApplyBlocks, IndexedUpdate, Reach;
    LoadedSizeUpdates(bs, m, news);
    SizeReaches(bs, |m|, news);
  }

  /** The stored version: its block map and its size. */
  datatype Version = Version(entries: seq<Hash>, size: nat)

  /** The version after the first `n` sessions of a file that starts empty. The update loop uses the
      size, as far as the map reaches, that the session before it stored. */
  function VersionAfter(bs: nat, sessions: seq<seq<NewBlock>>, n: nat): (v: Version)
    requires bs > 0 && n <= |sessions|
  {
    if n == 0 then Version([], 0) else
      var v, news := VersionAfter(bs, sessions, n - 1), sessions[n - 1];
      var isize := if v.size <= Start(bs, |v.entries|) then v.size else 0;
      Version(ApplyBlocks(bs, isize, v.entries, news), SizeAfter(bs, v.size, news))
  }

  ghost predicate AllOrderly(bs: nat, sessions: seq<seq<NewBlock>>, n: nat)
    requires bs > 0 && n <= |sessions|
  {
    forall k :: 0 <= k < n ==> Orderly(bs, |VersionAfter(bs, sessions, k).entries|, sessions[k])
  }

  /** The name a flush gave to block `i`, if it carried that block. */
  function Pushed(slots: seq<nat>, names: seq<Hash>, i: nat): (r: Option<Hash>)
    requires |slots| == |names|
    ensures r.Some? <==> i in slots
  {
    if slots == [] then None else
      var n := |slots| - 1;
      if slots[n] == i then Some(names[n]) else Pushed(slots[..n], names[..n], i)
  }

  /** The name that the last session to carry block `i` gave to it. */
  function LastPushed(bs: nat, sessions: seq<seq<NewBlock>>, n: nat, i: nat): (r: Option<Hash>)
    requires bs > 0 && n <= |sessions|
  {
    if n == 0 then None else
      var r := Pushed(Slots(bs, sessions[n - 1]), Names(sessions[n - 1]), i);
      if r.Some? then r else LastPushed(bs, sessions, n - 1, i)
  }

  lemma {:induction false} PushedIs(slots: seq<nat>, names: seq<Hash>, i: nat)
    requires |slots| == |names| && i in slots
    ensures exists j :: 0 <= j < |slots| && slots[j] == i && Pushed(slots, names, i) == Some(names[j])
    decreases |slots|
  {
    var n := |slots| - 1;
    if slots[n] != i {
      PushedIs(slots[..n], names[..n], i);
      var j :| 0 <= j < n && slots[..n][j] == i && Pushed(slots[..n], names[..n], i) == Some(names[..n][j]);
      assert slots[j] == i;
    }
  }

  lemma UpdatePushes(m: seq<Hash>, slots: seq<nat>, names: seq<Hash>, r: seq<Hash>, i: nat)
    requires |slots| == |names| && IndexedUpdate(m, slots, names, r)
    ensures var p := Pushed(slots, names, i);
            (if i < |r| then Some(r[i]) else None) == if p.Some? then p else if i < |m| then Some(m[i]) else None
  {
    hide Pushed;
    if i in slots {
      PushedIs(slots, names, i);
    }
  }

  /** Over any number of sessions the map has exactly the blocks that were ever pushed, entry `i` is the
      name from the last session that pushed block `i`, and the stored size is that of the map. */
  lemma {:induction false} MapOverSessions(bs: nat, sessions: seq<seq<NewBlock>>, n: nat)
    requires bs > 0 && n <= |sessions| && AllOrderly(bs, sessions, n)
    ensures var v := VersionAfter(bs, sessions, n);
            && v.size == Start(bs, |v.entries|)
            && forall i: nat :: LastPushed(bs, sessions, n, i) == if i < |v.entries| then Some(v.entries[i]) else None
  {
    hide Orderly, Slots, Names, ApplyBlocks, SizeAfter, IndexedUpdate, Pushed, Start;
    if n == 0 {
      NoBlocksNoBytes(bs);
    } else {
      MapOverSessions(bs, sessions, n - 1);
      var v, news := VersionAfter(bs, sessions, n - 1), sessions[n - 1];
      SizeFollowsMap(bs, v.entries, news);
      var r := ApplyBlocks(bs, Start(bs, |v.entries|), v.entries, news);
      forall i: nat
        ensures LastPushed(bs, sessions, n, i) == if i < |r| then Some(r[i]) else None
      {
        UpdatePushes(v.entries, Slots(bs, news), Names(news), r, i);
      }
    }
  }

  lemma NoBlocksNoBytes(bs: nat)
    ensures Start(bs, 0) == 0
  {
  }
}

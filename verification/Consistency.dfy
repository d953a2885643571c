/** The assumptions on runs can be met: with names drawn from a running clock nothing collides, and a
    file can be committed again and again. */
module Consistency {
  import opened Bytes
  import opened Ciphers
  import opened Capsules
  import opened Commits
  import opened Histories
  import Clients
  import Handles

  const TICKS := Pow256(HASHLEN)

  function TimeName(t: int): (h: Hash) {
    LittleEndian(if t < 0 then 0 else t, HASHLEN)
  }

  ghost predicate Timed(w: World) {
    forall r: Record {:trigger w.nameOf(r)} :: w.nameOf(r) == TimeName(r.time)
  }

  function ClockWorld(mwKey: seq<byte>, bs: nat): (w: World) {
    World((r: Record) => TimeName(r.time), AddOne(), mwKey, bs)
  }

  lemma ClockWorldFits(mwKey: seq<byte>, bs: nat)
    requires bs > 0
    ensures Fine(ClockWorld(mwKey, bs)) && Timed(ClockWorld(mwKey, bs))
  {
    hide AddOne, Sound, TimeName;
    AddOneSound();
  }

  /** Every stored record is older than `t`. */
  ghost predicate OlderThan(cap: Capsule, t: int) {
    forall n :: n in cap ==> 0 <= cap[n].time < t
  }

  lemma TimeNamesDiffer(a: int, b: int)
    requires 0 <= a < TICKS && 0 <= b < TICKS && TimeName(a) == TimeName(b)
    ensures a == b
  {
    hide LittleEndian, FromLittleEndian, Pow256;
    LittleEndianRoundTrip(a, HASHLEN);
    LittleEndianRoundTrip(b, HASHLEN);
  }

  /** Creations in different clock ticks get different names. */
  lemma TicksNameFiles(w: World, a: int, b: int)
    requires Timed(w) && 0 <= a < TICKS && 0 <= b < TICKS
    ensures w.nameOf(MetaRecord(a)) == w.nameOf(MetaRecord(b)) <==> a == b
  {
    hide TimeName;
    if w.nameOf(MetaRecord(a)) == w.nameOf(MetaRecord(b)) {
      TimeNamesDiffer(a, b);
    }
  }

  /** Records with new and distinct times collide with nothing. */
  lemma NewTimesDoNotCollide(w: World, dc: Name, cap: Capsule, rs: seq<Record>, t: nat)
    requires Timed(w) && Closed(w, dc, cap) && OlderThan(cap, t) && t + |rs| <= TICKS
    requires forall i :: 0 <= i < |rs| ==> rs[i].time == t + i
    ensures NoCollision(w, dc, cap, rs)
  {
    hide WellFormed, TimeName;
    forall i | 0 <= i < |rs|
      ensures w.nameOf(rs[i]) !in cap
    {
      var n := w.nameOf(rs[i]);
      if n in cap {
        assert w.nameOf(cap[n]) == n;
        TimeNamesDiffer(cap[n].time, t + i);
        assert false;
      }
    }
    forall i, j | 0 <= i < |rs| && 0 <= j < |rs| && w.nameOf(rs[i]) == w.nameOf(rs[j])
      ensures rs[i] == rs[j]
    {
      TimeNamesDiffer(t + i, t + j);
    }
  }

  lemma BatchTimes(w: World, dc: Name, latest: Name, b: Base, descs: seq<Desc>, clock: nat -> int, i: nat)
    requires descs != [] && i < |descs| + 2
    ensures Batch(w, dc, latest, b, descs, clock)[i].time == clock(i)
  {
    if i < |descs| {
      DataRecordAt(w, Or(b.data, dc), descs, clock, i);
    }
  }

  lemma AddedOlder(w: World, dc: Name, cap: Capsule, rs: seq<Record>, n: nat, t: nat)
    requires NoCollision(w, dc, cap, rs) && OlderThan(cap, t) && n <= |rs|
    requires forall i :: 0 <= i < |rs| ==> rs[i].time == t + i
    ensures OlderThan(Added(w, cap, rs, n), t + |rs|)
  {
    hide Added, NoCollision;
    AddedHas(w, dc, cap, rs, n);
    var a := Added(w, cap, rs, n);
    forall m | m in a
      ensures 0 <= a[m].time < t + |rs|
    {
      if m !in cap {
        var i :| 0 <= i < n && w.nameOf(rs[i]) == m;
      }
    }
  }

  /** With a running clock every request on an existing file is legal, and leaves room for the next. */
  lemma ClockedModify(w: World, st: Store, dc: Name, descs: seq<Desc>, inodeHash: Name, aesKey: seq<byte>,
                      clock: nat -> int, ok: nat -> bool, t: nat)
    requires Fine(w) && Timed(w) && Inv(w, st) && dc in st.capsules && OlderThan(st.capsules[dc], t)
    requires descs != [] && |aesKey| == AES_KEY_LEN && t + |descs| + 2 <= TICKS
    requires forall k: nat :: clock(k) == t + k
    ensures LegalModify(w, st, dc, descs, aesKey, clock)
    ensures var r := ModifyStep(w, st, dc, descs, inodeHash, aesKey, clock, ok);
            dc in r.st.capsules && OlderThan(r.st.capsules[dc], t + |descs| + 2)
  {
    hide Closed, NoCollision, Batch, WriteAll, BaseOf, Added, TimeName, Timed, OlderThan, Supported;
    BaseFound(w, st, dc, aesKey);
    var cap, rs := st.capsules[dc], Batch(w, dc, Latest(st, dc), BaseOf(st, dc, aesKey).value, descs, clock);
    forall i | 0 <= i < |rs|
      ensures rs[i].time == t + i
    {
      BatchTimes(w, dc, Latest(st, dc), BaseOf(st, dc, aesKey).value, descs, clock, i);
    }
    NewTimesDoNotCollide(w, dc, cap, rs, t);
    LegalBatch(w, st, dc, descs, aesKey, clock);
    BatchWritten(w, st, dc, rs, ok);
    AddedOlder(w, dc, cap, rs, WriteAll(w, st.capsules, dc, rs, ok).done, t);
    AddedOlder(w, dc, cap, rs, 0, t);
    Ages(cap, t, t + |rs|);
  }

  lemma Ages(cap: Capsule, t: int, u: int)
    requires OlderThan(cap, t) && t <= u
    ensures OlderThan(cap, u)
  {
  }

  /** A legal run with two commits on one file, for every pair of flushes. */
  lemma TwoCommits(w: World, a: seq<Desc>, b: seq<Desc>, key: seq<byte>) returns (ops: seq<Op>, dc: Name)
    requires Fine(w) && Timed(w) && a != [] && b != [] && |key| == AES_KEY_LEN
    requires |a| + |b| + 5 <= TICKS
    ensures LegalRun(w, ops) && |ops| == 3
    ensures Installs(w, At(w, ops, 1), ops[1], dc) && Installs(w, At(w, ops, 2), ops[2], dc)
    ensures ops[0] == Create(0, true) && dc == w.nameOf(MetaRecord(0)) && ops[1].Modify? && ops[1].aesKey == key
  {
    hide Inv, ModifyStep, CreateStep, LegalModify, OlderThan, Timed, TimeName, LittleEndian, Pow256;
    var all: nat -> bool := (k: nat) => true;
    var ca: nat -> int := (k: nat) => 1 + k;
    var cb: nat -> int := (k: nat) => 1 + |a| + 2 + k;
    dc := w.nameOf(MetaRecord(0));
    var st0 := Store(map[], map[]);
    var op0 := Create(0, true);
    EmptyInv(w);
    CreateKeepsInv(w, st0, 0, true);
    var st1 := Step(w, st0, op0).st;
    OneOld(dc, st1.capsules[dc]);
    var op1 := Modify(dc, a, [], key, ca, all);
    ClockedModify(w, st1, dc, a, [], key, ca, all, 1);
    ModifyAtomic(w, st1, dc, a, [], key, ca, all);
    ModifyKeepsInv(w, st1, dc, a, [], key, ca, all);
    var st2 := Step(w, st1, op1).st;
    var op2 := Modify(dc, b, Latest(st2, dc), key, cb, all);
    ClockedModify(w, st2, dc, b, Latest(st2, dc), key, cb, all, 1 + |a| + 2);
    ModifyAtomic(w, st2, dc, b, Latest(st2, dc), key, cb, all);
    ops := [op0, op1, op2];
    ThreeStates(w, op0, op1, op2);
  }

  lemma OneOld(dc: Name, cap: Capsule)
    requires cap == map[dc := MetaRecord(0)]
    ensures OlderThan(cap, 1)
  {
  }

  lemma ThreeStates(w: World, a: Op, b: Op, c: Op)
    requires (a.Modify? ==> a.descs != []) && (b.Modify? ==> b.descs != []) && (c.Modify? ==> c.descs != [])
    ensures var ops, st0 := [a, b, c], Store(map[], map[]);
            var st1 := Step(w, st0, a).st;
            && Shaped(ops)
            && At(w, ops, 0) == st0 && At(w, ops, 1) == st1 && At(w, ops, 2) == Step(w, st1, b).st
  {
    hide Step;
    var ops := [a, b, c];
    AtNext(w, ops, 0);
    AtNext(w, ops, 1);
  }

  /** The history of a run of one creation and two commits. */
  lemma TwoVersions(w: World, ops: seq<Op>, dc: Name)
    requires Shaped(ops) && |ops| == 3 && ops[0].Create? && ops[1].Modify?
    requires Installs(w, At(w, ops, 1), ops[1], dc) && Installs(w, At(w, ops, 2), ops[2], dc)
    ensures var h := HistoryOf(w, ops, |ops|, dc); |h.versions| == 2 && h.key == ops[1].aesKey
  {
    hide At, Step;
    assert HistoryOf(w, ops, 0, dc) == HistoryOf(w, ops, 1, dc);
    assert HistoryOf(w, ops, 2, dc) == Extended(w, At(w, ops, 1), ops[1], HistoryOf(w, ops, 1, dc));
  }

  /** The failing input of the key property: for every key and any two flushes there is a legal run
      whose second version hands out another key than its first, which hands out the right one. */
  lemma KeyDriftsInRun(mwKey: seq<byte>, bs: nat, a: seq<Desc>, b: seq<Desc>, key: seq<byte>)
    returns (ops: seq<Op>, dc: Name)
    requires bs > 0 && a != [] && b != [] && |key| == AES_KEY_LEN && |a| + |b| + 5 <= TICKS
    ensures DriftingRun(ClockWorld(mwKey, bs), ops, dc, key)
  {
    hide LegalRun, At, HistoryOf, Timed, Fine, ClockWorld, Pow256, FixedKey, DriftingRun;
    var w := ClockWorld(mwKey, bs);
    ClockWorldFits(mwKey, bs);
    ClockWorldDrifts(mwKey, bs, key);
    ops, dc := TwoCommits(w, a, b, key);
    RunFacts(w, ops);
    TwoVersions(w, ops, dc);
    SecondKey(w, ops, dc);
  }

  lemma ClockWorldDrifts(mwKey: seq<byte>, bs: nat, key: seq<byte>)
    requires |key| == AES_KEY_LEN
    ensures !FixedKey(ClockWorld(mwKey, bs), key)
  {
    hide AddOne, TimeName, Sound;
    KeyDrifts(mwKey, key);
  }

  /** A legal run in which the first version of a file hands out `key` and the second another one. */
  ghost predicate DriftingRun(w: World, ops: seq<Op>, dc: Name, key: seq<byte>) {
    && LegalRun(w, ops) && |HistoryOf(w, ops, |ops|, dc).versions| >= 2
    && var cap, vs := CapsuleOf(At(w, ops, |ops|), dc), HistoryOf(w, ops, |ops|, dc).versions;
       && vs[0] in cap && InodeShape(cap[vs[0]]) && IssuedKey(w, cap, vs[0]) == key
       && vs[1] in cap && InodeShape(cap[vs[1]]) && IssuedKey(w, cap, vs[1]) != key
  }

  lemma SecondKey(w: World, ops: seq<Op>, dc: Name)
    requires LegalRun(w, ops) && |HistoryOf(w, ops, |ops|, dc).versions| >= 2
    requires !FixedKey(w, HistoryOf(w, ops, |ops|, dc).key)
    ensures DriftingRun(w, ops, dc, HistoryOf(w, ops, |ops|, dc).key)
  {
    hide LegalRun, At, HistoryOf, IssuedKey, Rounds, FixedKey, InodeShape;
    RunFacts(w, ops);
    FirstRound(w, HistoryOf(w, ops, |ops|, dc).key);
    KeyRounds(w, ops, |ops|, dc, 0);
    KeyRounds(w, ops, |ops|, dc, 1);
  }

  /** The failing input of a second creation in one clock tick: after some legal run the file named by
      tick 0 has a version, and creating in tick 0 again leaves it without one. */
  lemma SecondCreationForgets(w: World, a: seq<Desc>, b: seq<Desc>, key: seq<byte>) returns (ops: seq<Op>)
    requires Fine(w) && Timed(w) && a != [] && b != [] && |key| == AES_KEY_LEN && |a| + |b| + 5 <= TICKS
    ensures LegalRun(w, ops) && Forgets(w, At(w, ops, |ops|), 0)
  {
    hide LegalRun, At, HistoryOf, Timed, Pow256, MetaRecord, CreateStep;
    var dc;
    ops, dc := TwoCommits(w, a, b, key);
    RunFacts(w, ops);
    TwoVersions(w, ops, dc);
    NeverCommitted(w, ops, |ops|, dc);
    CreateForgetsExact(w, At(w, ops, |ops|), 0, true);
  }

  /** A creation in this tick succeeds and takes the latest version away from a file that has one. */
  ghost predicate Forgets(w: World, st: Store, time: int) {
    var r, dc := CreateStep(w, st, time, true), w.nameOf(MetaRecord(time));
    r.ret == NO_ERR && Latest(st, dc) != [] && Latest(r.st, dc) == []
  }

  // ---- a run of a client ----

  /** The state after one creation in tick 0 and one write that leaves `descs` to be flushed. */
  ghost predicate Written(w: World, s: Clients.Client, key: seq<byte>, descs: seq<Desc>) {
    var dc, fd := w.nameOf(MetaRecord(0)), Handles.FD_START + 1;
    && s.log == [Create(0, true)] && fd in s.hs.open && Clients.FileOf(s.hs, fd) == dc
    && Handles.Refs(s.hs.fs, dc) == 1 && s.mems == map[dc := Clients.Mem([], key, descs)]
  }

  lemma Creates(w: World, key: seq<byte>)
    requires Fine(w)
    ensures var c := Clients.Create("/f", 0, true, key);
            && Clients.Joint(w, Clients.Init()) && Clients.Enabled(w, Clients.Init(), c)
            && Written(w, Clients.Next(w, Clients.Init(), c), key, [])
  {
    hide Handles.Inv, LegalRun, Sound;
    Clients.InitJoint(w);
    var s, c := Clients.Init(), Clients.Create("/f", 0, true, key);
    assert Clients.Requests(s, c) == [Create(0, true)];
    assert Clients.Enabled(w, s, c);
  }

  lemma Writes(w: World, s: Clients.Client, key: seq<byte>, descs: seq<Desc>)
    requires Clients.Joint(w, s) && Written(w, s, key, [])
    ensures var c := Clients.Write(Handles.FD_START + 1, descs);
            Clients.Enabled(w, s, c) && Written(w, Clients.Next(w, s, c), key, descs)
  {
    hide Handles.Inv, LegalRun, Clients.NamesCurrent, Clients.KeysCurrent, Clients.FilesExist;
    var c := Clients.Write(Handles.FD_START + 1, descs);
    assert Clients.Requests(s, c) == [];
    assert s.log + [] == s.log;
  }

  lemma FirstStore(w: World)
    requires Fine(w)
    ensures var ops, dc := [Create(0, true)], w.nameOf(MetaRecord(0));
            && Shaped(ops) && Inv(w, Clients.StoreOf(w, ops)) && dc in Clients.StoreOf(w, ops).capsules
            && OlderThan(Clients.StoreOf(w, ops).capsules[dc], 1)
  {
    hide Inv, Sound, OlderThan;
    var ops, dc := [Create(0, true)], w.nameOf(MetaRecord(0));
    EmptyInv(w);
    CreateKeepsInv(w, Store(map[], map[]), 0, true);
    AtNext(w, ops, 0);
    OneOld(dc, Clients.StoreOf(w, ops).capsules[dc]);
  }

  lemma Closes(w: World, s: Clients.Client, key: seq<byte>, descs: seq<Desc>, clock: nat -> int, ok: nat -> bool)
    requires Fine(w) && Timed(w) && Clients.Joint(w, s) && Written(w, s, key, descs)
    requires descs != [] && |key| == AES_KEY_LEN && |descs| + 3 <= TICKS && forall k: nat :: clock(k) == 1 + k
    ensures var c := Clients.Flush(Handles.FD_START + 1, clock, ok);
            Clients.Enabled(w, s, c) && Clients.LastClose(s, c)
  {
    hide Handles.Inv, LegalRun, Clients.NamesCurrent, Clients.KeysCurrent, Clients.FilesExist, At, Inv, OlderThan,
         Timed, Fine, LegalModify, ModifyStep, Pow256;
    var c, dc := Clients.Flush(Handles.FD_START + 1, clock, ok), w.nameOf(MetaRecord(0));
    FirstStore(w);
    ClockedModify(w, Clients.StoreOf(w, s.log), dc, descs, [], key, clock, ok, 1);
    assert Clients.Requests(s, c) == [Modify(dc, descs, [], key, clock, ok)];
  }

  /** The failing input of a silent close: a client creates a file, writes any blocks to it and closes
      it while a write of the request fails. The close is the last one and nothing is committed. */
  lemma SilentLoss(w: World, key: seq<byte>, descs: seq<Desc>, ok: nat -> bool)
    returns (calls: seq<Clients.Call>, states: seq<Clients.Client>)
    requires Fine(w) && Timed(w) && descs != [] && |key| == AES_KEY_LEN && |descs| + 3 <= TICKS
    requires exists i :: 0 <= i < |descs| + 2 && !ok(i)
    ensures Clients.Run(w, calls, states) && |calls| == 3
    ensures Clients.LastClose(states[2], calls[2]) && !Clients.AllWritten(states[2], calls[2])
  {
    hide Clients.Joint, Clients.Enabled, Clients.Next, Clients.LastClose, Fine, Timed, Clients.Init, Pow256,
         Handles.Refs, Clients.FileOf;
    var clock: nat -> int := (k: nat) => 1 + k;
    var fd := Handles.FD_START + 1;
    var c0, c1, c2 := Clients.Create("/f", 0, true, key), Clients.Write(fd, descs), Clients.Flush(fd, clock, ok);
    var s0 := Clients.Init();
    Creates(w, key);
    Clients.CallKeeps(w, s0, c0);
    var s1 := Clients.Next(w, s0, c0);
    Writes(w, s1, key, descs);
    Clients.CallKeeps(w, s1, c1);
    var s2 := Clients.Next(w, s1, c1);
    Closes(w, s2, key, descs, clock, ok);
    calls, states := [c0, c1, c2], [s0, s1, s2, Clients.Next(w, s2, c2)];
    assert Clients.FlushRequest(s2, c2).descs == descs;
  }
}

/** One client as a whole: its descriptors, its in-memory inodes and the store behind them, over any run
    of file-system calls. What a read or write does to a cache is in `Sessions`; here a write leaves
    any blocks to be flushed. */
module Clients {
  import opened Bytes
  import opened Ciphers
  import opened Capsules
  import opened Commits
  import Histories
  import Handles

  /** An in-memory inode: the version it stands on, its key, and the blocks its flush would send. */
  datatype Mem = Mem(inodeName: Name, key: seq<byte>, pending: seq<Desc>)

  /** The descriptors, the in-memory inodes, and the requests made to the middleware so far. */
  datatype Client = Client(hs: Handles.Sys, mems: map<Name, Mem>, log: seq<Histories.Op>)

  datatype Call =
    | Create(path: string, time: int, stored: bool, key: seq<byte>)
    | Open(path: string)
    | GetAttr(path: string)
    | Read(fd: nat)
    | Write(fd: nat, pending: seq<Desc>)
    | Flush(fd: nat, clock: nat -> int, ok: nat -> bool)

  /** The store behind the client. */
  function StoreOf(w: World, log: seq<Histories.Op>): (st: Store)
    requires Histories.Shaped(log)
  {
    Histories.At(w, log, |log|)
  }

  function FileOf(hs: Handles.Sys, fd: nat): (h: Name) {
    if fd < |hs.fs.fds| then hs.fs.fds[fd] else []
  }

  /** What a call does to descriptors and reference counts. */
  function HandleStep(w: World, s: Client, call: Call): (r: Option<Handles.Step>)
    requires Histories.Shaped(s.log)
  {
    var dir, st := s.hs.fs.dir, StoreOf(w, s.log);
    match call
    case Create(path, time, stored, _) =>
      Some(Handles.Create(path, if path !in dir && stored then Some(w.nameOf(MetaRecord(time))) else None))
    case Open(path) => Some(Handles.Open(path, path in dir && dir[path] in st.index))
    case GetAttr(path) => Some(Handles.GetAttr(path, path in dir && dir[path] in st.index))
    case Read(_) => None
    case Write(_, _) => None
    case Flush(fd, _, _) => Some(Handles.Flush(fd))
  }

  /** Whether the call is the last close of a file with something to flush. */
  predicate LastClose(s: Client, call: Call) {
    && call.Flush? && FileOf(s.hs, call.fd) in s.mems && Handles.Refs(s.hs.fs, FileOf(s.hs, call.fd)) == 1
    && s.mems[FileOf(s.hs, call.fd)].pending != []
  }

  /** The request that the last close of a file makes. */
  function FlushRequest(s: Client, call: Call): (op: Histories.Op)
    requires LastClose(s, call)
    ensures op.Modify? && op.descs != []
  {
    var h := FileOf(s.hs, call.fd);
    Histories.Modify(h, s.mems[h].pending, s.mems[h].inodeName, s.mems[h].key, call.clock, call.ok)
  }

  /** The requests that a call makes to the middleware. */
  function Requests(s: Client, call: Call): (ops: seq<Histories.Op>)
    ensures |ops| <= 1 && Histories.Shaped(ops)
  {
    if call.Create? && call.path !in s.hs.fs.dir then [Histories.Create(call.time, call.stored)]
    else if LastClose(s, call) then [FlushRequest(s, call)]
    else []
  }

  /** The inode of a file as it is loaded from its latest version. */
  ghost function Loaded(w: World, st: Store, h: Name): (m: Mem) {
    var cap, v := CapsuleOf(st, h), Latest(st, h);
    Mem(v, if v in cap && InodeShape(cap[v]) then IssuedKey(w, cap, v) else [], [])
  }

  ghost function NextMems(w: World, s: Client, call: Call): (mems: map<Name, Mem>)
    requires Histories.Shaped(s.log)
  {
    var dir, st := s.hs.fs.dir, StoreOf(w, s.log);
    match call
    case Create(path, time, stored, key) =>
      if path in dir || !stored then s.mems else s.mems[w.nameOf(MetaRecord(time)) := Mem([], key, [])]
    case Open(path) => if path in dir then Load(w, st, s.mems, dir[path]) else s.mems
    case GetAttr(path) => if path in dir then Load(w, st, s.mems, dir[path]) else s.mems
    case Read(_) => s.mems
    case Write(fd, pending) =>
      var h := FileOf(s.hs, fd);
      if h in s.mems then s.mems[h := s.mems[h].(pending := pending)] else s.mems
    case Flush(fd, _, _) =>
      var h := FileOf(s.hs, fd);
      if Handles.Refs(s.hs.fs, h) == 1 then s.mems - {h} else s.mems
  }

  ghost function Load(w: World, st: Store, mems: map<Name, Mem>, h: Name): (r: map<Name, Mem>) {
    if h in mems || h !in st.index then mems else mems[h := Loaded(w, st, h)]
  }

  /** What a call may rely on: descriptors do not run out, a handle is used while it is open, hashes do
      not collide, and a file that has to be loaded has a version, without which the code aborts. */
  ghost predicate Enabled(w: World, s: Client, call: Call)
    requires Histories.Shaped(s.log)
  {
    var dir, st := s.hs.fs.dir, StoreOf(w, s.log);
    && (HandleStep(w, s, call).Some? ==> HandleEnabled(s.hs, HandleStep(w, s, call).value))
    && (call.Read? || call.Write? ==> call.fd in s.hs.open)
    && (forall op :: op in Requests(s, call) ==> Histories.Legal(w, st, op))
    && ((call.Open? || call.GetAttr?) && call.path in dir && dir[call.path] !in s.mems ==>
          Latest(st, dir[call.path]) != [])
  }

  ghost predicate HandleEnabled(hs: Handles.Sys, step: Handles.Step) {
    match step
    case Create(_, _) => hs.fs.fdCnt + 1 < |hs.fs.fds|
    case Open(_, _) => hs.fs.fdCnt + 1 < |hs.fs.fds|
    case GetAttr(_, _) => true
    case Flush(fd) => fd in hs.open
  }

  /** Every in-memory inode stands on the latest version of its file. */
  ghost predicate NamesCurrent(st: Store, mems: map<Name, Mem>) {
    forall h :: h in mems ==> mems[h].inodeName == Latest(st, h)
  }

  /** Every in-memory inode of a file with a version has the key which that version hands out. */
  ghost predicate KeysCurrent(w: World, st: Store, mems: map<Name, Mem>) {
    forall h :: h in mems && Latest(st, h) != [] ==> KeyIs(w, st, h, mems[h].key)
  }

  ghost predicate KeyIs(w: World, st: Store, h: Name, key: seq<byte>) {
    var cap, v := CapsuleOf(st, h), Latest(st, h);
    v in cap && InodeShape(cap[v]) && key == IssuedKey(w, cap, v)
  }

  /** Every file in memory or in the directory exists. */
  ghost predicate FilesExist(st: Store, dir: map<string, Name>, mems: map<Name, Mem>) {
    && (forall h :: h in mems ==> h in st.capsules)
    && (forall p :: p in dir ==> dir[p] in st.capsules && dir[p] in st.index)
  }

  ghost predicate Joint(w: World, s: Client) {
    && Handles.Inv(s.hs) && Histories.LegalRun(w, s.log)
    && s.mems.Keys == s.hs.fs.table.Keys
    && NamesCurrent(StoreOf(w, s.log), s.mems) && KeysCurrent(w, StoreOf(w, s.log), s.mems)
    && FilesExist(StoreOf(w, s.log), s.hs.fs.dir, s.mems)
  }

  ghost function Next(w: World, s: Client, call: Call): (t: Client)
    requires Joint(w, s) && Enabled(w, s, call)
  {
    HandlesEnabled(w, s, call);
    var step := HandleStep(w, s, call);
    Client(if step.None? then s.hs else Handles.Next(s.hs, step.value), NextMems(w, s, call), s.log + Requests(s, call))
  }

  /** The handle machine can follow: a new file has a name of its own, a known one can be loaded. */
  lemma HandlesEnabled(w: World, s: Client, call: Call)
    requires Joint(w, s) && Enabled(w, s, call)
    ensures HandleStep(w, s, call).Some? ==> Handles.Enabled(s.hs, HandleStep(w, s, call).value)
  {
    hide Handles.Inv, Histories.At;
    if call.Create? && call.path !in s.hs.fs.dir {
      assert Requests(s, call)[0] in Requests(s, call);
    }
  }

  // ---- requests extend the log ----

  lemma {:induction false} LogPrefix(w: World, log: seq<Histories.Op>, more: seq<Histories.Op>, n: nat)
    requires Histories.Shaped(log) && Histories.Shaped(log + more) && n <= |log|
    ensures Histories.At(w, log + more, n) == Histories.At(w, log, n)
  {
    hide Histories.Step;
    if n == 0 {
    } else {
      LogPrefix(w, log, more, n - 1);
    }
  }

  lemma LogGrows(w: World, log: seq<Histories.Op>, op: Histories.Op)
    requires Histories.LegalRun(w, log) && Histories.Shaped([op]) && Histories.Legal(w, StoreOf(w, log), op)
    ensures Histories.LegalRun(w, log + [op])
    ensures op.Modify? ==> op.descs != []
    ensures StoreOf(w, log + [op]) == Histories.Step(w, StoreOf(w, log), op).st
  {
    hide Histories.Step, Histories.Legal, Histories.At, Fine;
    var all := log + [op];
    assert [op][0] == op;
    assert forall i :: 0 <= i < |all| ==> all[i] == if i < |log| then log[i] else op;
    forall i | 0 <= i < |all|
      ensures Histories.Legal(w, Histories.At(w, all, i), all[i])
    {
      LogPrefix(w, log, [op], i);
    }
    LogPrefix(w, log, [op], |log|);
    Histories.AtNext(w, all, |log|);
  }

  // ---- every call keeps the joint invariant ----

  lemma TableFollows(w: World, s: Client, call: Call)
    requires Joint(w, s) && Enabled(w, s, call)
    ensures Handles.Inv(Next(w, s, call).hs) && Next(w, s, call).mems.Keys == Next(w, s, call).hs.fs.table.Keys
  {
    hide Handles.Inv, Handles.PathsKept, Histories.At, Histories.LegalRun, NamesCurrent, KeysCurrent, FilesExist,
         Histories.Legal, Loaded;
    Histories.RunFacts(w, s.log);
    HandlesEnabled(w, s, call);
    DirIndexed(w, s);
    var step := HandleStep(w, s, call);
    if step.Some? {
      Handles.StepKeeps(s.hs, step.value);
      if call.Flush? {
        Handles.UnrefSafe(s.hs, call.fd);
        OpenInTable(s.hs, call.fd);
      }
    }
  }

  lemma OpenInTable(hs: Handles.Sys, fd: nat)
    requires Handles.Inv(hs) && fd in hs.open
    ensures fd < |hs.fs.fds| && hs.fs.fds[fd] in hs.fs.table
  {
  }

  lemma DirIndexed(w: World, s: Client)
    requires Joint(w, s)
    ensures forall p :: p in s.hs.fs.dir ==> s.hs.fs.dir[p] in StoreOf(w, s.log).index
  {
    hide Handles.Inv, Histories.At, Histories.LegalRun, NamesCurrent;
  }

  lemma DirAfter(w: World, s: Client, call: Call)
    requires Joint(w, s) && Enabled(w, s, call)
    ensures var dir := Next(w, s, call).hs.fs.dir;
            if call.Create? && call.path !in s.hs.fs.dir && call.stored
            then dir == s.hs.fs.dir[call.path := w.nameOf(MetaRecord(call.time))] else dir == s.hs.fs.dir
  {
    hide Handles.Inv, Handles.PathsKept, Histories.At, Histories.LegalRun, NamesCurrent, KeysCurrent, FilesExist,
         Histories.Legal, NextMems, Requests;
    HandlesEnabled(w, s, call);
  }

  /** The store after a call: what is new for a file is a creation or a commit of it. */
  lemma LogFollows(w: World, s: Client, call: Call)
    requires Joint(w, s) && Enabled(w, s, call)
    ensures var ops, st := Requests(s, call), StoreOf(w, s.log);
            && Histories.LegalRun(w, s.log + ops)
            && StoreOf(w, s.log + ops) == if ops == [] then st else Histories.Step(w, st, ops[0]).st
  {
    hide Handles.Inv, Histories.At, Histories.LegalRun, Histories.Legal, Histories.Step, NamesCurrent, KeysCurrent,
         FilesExist, HandleStep, HandleEnabled, LastClose;
    var ops := Requests(s, call);
    if ops == [] {
      assert s.log + ops == s.log;
    } else {
      assert ops == [ops[0]] && ops[0] in ops;
      LogGrows(w, s.log, ops[0]);
    }
  }

  lemma CreateFollows(w: World, st: Store, dir: map<string, Name>, mems: map<Name, Mem>, path: string, time: int,
                      stored: bool, key: seq<byte>)
    requires Inv(w, st) && w.nameOf(MetaRecord(time)) !in st.capsules
    requires NamesCurrent(st, mems) && KeysCurrent(w, st, mems) && FilesExist(st, dir, mems)
    ensures var st', h := CreateStep(w, st, time, stored).st, w.nameOf(MetaRecord(time));
            var mems' := if stored then mems[h := Mem([], key, [])] else mems;
            && NamesCurrent(st', mems') && KeysCurrent(w, st', mems')
            && FilesExist(st', if stored then dir[path := h] else dir, mems')
  {
    hide Inv, IssuedKey, InodeShape;
    CreateKeepsInv(w, st, time, stored);
  }

  lemma FlushFollows(w: World, st: Store, dir: map<string, Name>, mems: map<Name, Mem>, op: Histories.Op)
    requires Fine(w) && Inv(w, st) && op.Modify? && op.descs != [] && Histories.Legal(w, st, op)
    requires NamesCurrent(st, mems) && KeysCurrent(w, st, mems) && FilesExist(st, dir, mems)
    ensures var st' := Histories.Step(w, st, op).st;
            && NamesCurrent(st', mems - {op.dc}) && KeysCurrent(w, st', mems - {op.dc})
            && FilesExist(st', dir, mems - {op.dc})
  {
    hide Inv, ModifyStep, LegalModify, Latest, IssuedKey, InodeShape;
    ModifyAtomic(w, st, op.dc, op.descs, op.inodeHash, op.aesKey, op.clock, op.ok);
    ModifyKeepsInv(w, st, op.dc, op.descs, op.inodeHash, op.aesKey, op.clock, op.ok);
  }

  lemma LoadFollows(w: World, st: Store, dir: map<string, Name>, mems: map<Name, Mem>, h: Name)
    requires Inv(w, st) && NamesCurrent(st, mems) && KeysCurrent(w, st, mems) && FilesExist(st, dir, mems)
    requires h in st.capsules
    ensures var mems' := Load(w, st, mems, h);
            NamesCurrent(st, mems') && KeysCurrent(w, st, mems') && FilesExist(st, dir, mems')
  {
    hide IssuedKey, Inv;
    if Latest(st, h) != [] {
      LatestReadable(w, st, h);
    }
  }

  lemma MemsFollow(w: World, s: Client, call: Call)
    requires Joint(w, s) && Enabled(w, s, call)
    ensures var t := Next(w, s, call);
            && Histories.LegalRun(w, t.log)
            && NamesCurrent(StoreOf(w, t.log), t.mems) && KeysCurrent(w, StoreOf(w, t.log), t.mems)
            && FilesExist(StoreOf(w, t.log), t.hs.fs.dir, t.mems)
  {
    hide Handles.Inv, Handles.Next, Histories.At, Histories.LegalRun, Inv, CreateStep, ModifyStep, Load, HandleEnabled,
         Sound, Latest, KeyIs;
    Histories.RunFacts(w, s.log);
    var st, dir, t := StoreOf(w, s.log), s.hs.fs.dir, Next(w, s, call);
    Histories.StoreInvariant(w, s.log, |s.log|);
    LogFollows(w, s, call);
    DirAfter(w, s, call);
    match call
    case Create(path, time, stored, key) =>
      if path !in dir {
        assert Requests(s, call)[0] in Requests(s, call);
        CreateFollows(w, st, dir, s.mems, path, time, stored, key);
      }
    case Open(path) =>
      if path in dir {
        LoadFollows(w, st, dir, s.mems, dir[path]);
      }
    case GetAttr(path) =>
      if path in dir {
        LoadFollows(w, st, dir, s.mems, dir[path]);
      }
    case Read(_) =>
    case Write(_, _) =>
    case Flush(_, _, _) =>
      if LastClose(s, call) {
        assert Requests(s, call)[0] in Requests(s, call);
        FlushFollows(w, st, dir, s.mems, FlushRequest(s, call));
      }
  }

  lemma CallKeeps(w: World, s: Client, call: Call)
    requires Joint(w, s) && Enabled(w, s, call)
    ensures Joint(w, Next(w, s, call))
  {
    hide Handles.Inv, Next, Histories.LegalRun, NamesCurrent, KeysCurrent, FilesExist, Enabled;
    TableFollows(w, s, call);
    MemsFollow(w, s, call);
  }

  // ---- runs ----

  function Init(): (s: Client) {
    Client(Handles.Init(), map[], [])
  }

  ghost predicate Run(w: World, calls: seq<Call>, states: seq<Client>) {
    && Fine(w) && |states| == |calls| + 1 && states[0] == Init()
    && forall n :: 0 <= n < |calls| ==> Takes(w, states[n], calls[n], states[n + 1])
  }

  /** One call of a run. `Next` is defined on joint states; `Reachable` shows there are no others. */
  ghost predicate Takes(w: World, s: Client, call: Call, t: Client) {
    Joint(w, s) ==> Enabled(w, s, call) && t == Next(w, s, call)
  }

  lemma InitJoint(w: World)
    requires Fine(w)
    ensures Joint(w, Init())
  {
    hide Handles.Inv;
    Handles.InitInv();
  }

  /** In every reachable state the reference counts are right, the requests made so far are a legal
      run of the middleware, and every in-memory inode stands on the latest version of its file and has
      the key of that version. */
  lemma {:induction false} Reachable(w: World, calls: seq<Call>, states: seq<Client>, n: nat)
    requires Run(w, calls, states) && n < |states|
    ensures Joint(w, states[n])
  {
    hide Joint, Next, Enabled, Init, Fine;
    if n == 0 {
      InitJoint(w);
    } else {
      Reachable(w, calls, states, n - 1);
      assert Takes(w, states[n - 1], calls[n - 1], states[n]);
      CallKeeps(w, states[n - 1], calls[n - 1]);
    }
  }

  /** Every write of the request goes through. */
  ghost predicate AllWritten(s: Client, call: Call)
    requires LastClose(s, call)
  {
    forall i :: 0 <= i < |FlushRequest(s, call).descs| + 2 ==> call.ok(i)
  }

  lemma FlushDecides(w: World, s: Client, call: Call)
    requires Joint(w, s) && Enabled(w, s, call) && LastClose(s, call)
    ensures var op, st := FlushRequest(s, call), StoreOf(w, s.log);
            && op.inodeHash == Latest(st, op.dc) && op.dc in st.capsules
            && (Histories.Step(w, st, op).ret == NO_ERR <==> AllWritten(s, call))
  {
    hide Handles.Inv, Histories.At, Histories.LegalRun, Inv, ModifyStep, LegalModify, HandleStep, HandleEnabled, Sound;
    Histories.RunFacts(w, s.log);
    var op, st := FlushRequest(s, call), StoreOf(w, s.log);
    Histories.StoreInvariant(w, s.log, |s.log|);
    assert Requests(s, call)[0] in Requests(s, call);
    ModifyAtomic(w, st, op.dc, op.descs, op.inodeHash, op.aesKey, op.clock, op.ok);
  }

  /** No lost updates between the files of one client: at every last close of every run the request
      names the latest version, so it is never refused, and it succeeds exactly when all its writes do. */
  lemma FlushNeverRefused(w: World, calls: seq<Call>, states: seq<Client>, n: nat)
    requires Run(w, calls, states) && n < |calls| && LastClose(states[n], calls[n])
    ensures Joint(w, states[n])
    ensures var op, st := FlushRequest(states[n], calls[n]), StoreOf(w, states[n].log);
            && op.inodeHash == Latest(st, op.dc) && op.dc in st.capsules
            && (Histories.Step(w, st, op).ret == NO_ERR <==> AllWritten(states[n], calls[n]))
  {
    hide Joint, Next, Enabled, Init, Fine, LastClose, AllWritten, Histories.Step, Histories.At, FlushRequest;
    Reachable(w, calls, states, n);
    assert Takes(w, states[n], calls[n], states[n + 1]);
    FlushDecides(w, states[n], calls[n]);
  }

  lemma FlushReleases(w: World, s: Client, call: Call)
    requires Joint(w, s) && Enabled(w, s, call) && LastClose(s, call)
    ensures var h, t := FileOf(s.hs, call.fd), Next(w, s, call);
            && call.fd < |s.hs.fs.fds| && Handles.FlushOp(s.hs.fs, call.fd).ret == 0
            && h !in t.mems && h !in t.hs.fs.table && t.log == s.log + [FlushRequest(s, call)]
  {
    hide Handles.Inv, Handles.PathsKept, Histories.At, Histories.LegalRun, Histories.Legal, NamesCurrent, KeysCurrent,
         FilesExist;
    HandlesEnabled(w, s, call);
    OpenInTable(s.hs, call.fd);
  }

  /** A failed last flush is silent. At every last close the call returns 0 and the in-memory inode,
      the only copy of what was written, is gone; the file has a new version exactly when all writes of
      the request went through. */
  lemma FailureIsSilent(w: World, calls: seq<Call>, states: seq<Client>, n: nat)
    requires Run(w, calls, states) && n < |calls| && LastClose(states[n], calls[n])
    ensures Joint(w, states[n]) && Joint(w, states[n + 1])
    ensures var s, t, h := states[n], states[n + 1], FileOf(states[n].hs, calls[n].fd);
            && calls[n].fd < |s.hs.fs.fds| && Handles.Refs(s.hs.fs, h) > 0
            && Handles.FlushOp(s.hs.fs, calls[n].fd).ret == 0 && h !in t.mems
            && (Latest(StoreOf(w, t.log), h) != Latest(StoreOf(w, s.log), h) <==> AllWritten(s, calls[n]))
  {
    hide Next, Enabled, Init, Fine, AllWritten, Histories.Step, Histories.At, Histories.LegalRun, Handles.Inv,
         NamesCurrent, KeysCurrent, FilesExist, Latest;
    FlushNeverRefused(w, calls, states, n);
    Reachable(w, calls, states, n + 1);
    var s, t, op := states[n], states[n + 1], FlushRequest(states[n], calls[n]);
    assert Takes(w, s, calls[n], t);
    FlushReleases(w, s, calls[n]);
    OneMoreRequest(w, s.log, op, op.dc);
  }

  lemma OneMoreRequest(w: World, log: seq<Histories.Op>, op: Histories.Op, h: Name)
    requires Histories.LegalRun(w, log) && Histories.LegalRun(w, log + [op])
    ensures Latest(StoreOf(w, log + [op]), h) != Latest(StoreOf(w, log), h) <==>
              Histories.Installs(w, StoreOf(w, log), op, h)
  {
    hide Histories.Legal, Histories.At, Histories.Installs;
    var all := log + [op];
    LogPrefix(w, log, [op], |log|);
    Histories.IndexMovesExact(w, all, |log|, |all|, h);
    assert all[|log|] == op;
  }

  /** What is waiting to be flushed: at every call of every run a write sets it for its own file, a file
      that comes into memory has nothing, and no other call changes it while the file stays in memory. */
  lemma PendingExact(w: World, calls: seq<Call>, states: seq<Client>, n: nat, h: Name)
    requires Run(w, calls, states) && n < |calls| && h in states[n + 1].mems
    ensures var s, t, call := states[n], states[n + 1], calls[n];
            if h !in s.mems then t.mems[h].pending == []
            else t.mems[h] == if call.Write? && FileOf(s.hs, call.fd) == h then s.mems[h].(pending := call.pending)
                              else s.mems[h]
  {
    hide Handles.Inv, Histories.LegalRun, Histories.At, NamesCurrent, KeysCurrent, FilesExist, Fine, Init;
    Reachable(w, calls, states, n);
    var s, call := states[n], calls[n];
    assert Takes(w, s, call, states[n + 1]);
    if call.Create? && call.path !in s.hs.fs.dir {
      NewNameNotInMemory(w, s, call);
    }
  }

  lemma NewNameNotInMemory(w: World, s: Client, call: Call)
    requires Joint(w, s) && Enabled(w, s, call) && call.Create? && call.path !in s.hs.fs.dir
    ensures w.nameOf(MetaRecord(call.time)) !in s.mems
  {
    hide Handles.Inv, Histories.LegalRun, Histories.At, NamesCurrent, KeysCurrent;
    assert Requests(s, call)[0] in Requests(s, call);
  }

  // ---- counting versions ----

  /** Whether call `k` of a run is a last close of file `h` all of whose writes go through. */
  ghost predicate CommitsAt(states: seq<Client>, calls: seq<Call>, k: nat, h: Name)
    requires k < |calls| < |states|
  {
    LastClose(states[k], calls[k]) && FileOf(states[k].hs, calls[k].fd) == h && AllWritten(states[k], calls[k])
  }

  ghost function CommitCount(states: seq<Client>, calls: seq<Call>, n: nat, h: Name): (k: nat)
    requires n <= |calls| < |states|
  {
    if n == 0 then 0
    else CommitCount(states, calls, n - 1, h) + if CommitsAt(states, calls, n - 1, h) then 1 else 0
  }

  ghost function VersionCount(w: World, log: seq<Histories.Op>, h: Name): (k: nat)
    requires Histories.Shaped(log)
  {
    |Histories.HistoryOf(w, log, |log|, h).versions|
  }

  lemma {:induction false} HistoryOfPrefix(w: World, log: seq<Histories.Op>, more: seq<Histories.Op>, n: nat, h: Name)
    requires Histories.Shaped(log) && Histories.Shaped(log + more) && n <= |log|
    ensures Histories.HistoryOf(w, log + more, n, h) == Histories.HistoryOf(w, log, n, h)
  {
    hide Histories.At, Histories.Installs, Histories.Extended;
    if n == 0 {
    } else {
      HistoryOfPrefix(w, log, more, n - 1, h);
      LogPrefix(w, log, more, n - 1);
    }
  }

  lemma RequestCounts(w: World, log: seq<Histories.Op>, op: Histories.Op, h: Name)
    requires Histories.Shaped(log) && Histories.Shaped(log + [op]) && (op.Modify? ==> op.descs != [])
    ensures VersionCount(w, log + [op], h)
         == VersionCount(w, log, h) + if Histories.Installs(w, StoreOf(w, log), op, h) then 1 else 0
  {
    hide Histories.At, Histories.Installs, Histories.HistoryOf, Histories.Extended;
    var all := log + [op];
    assert all[|log|] == op;
    HistoryOfPrefix(w, log, [op], |log|, h);
    LogPrefix(w, log, [op], |log|);
    Histories.HistoryNext(w, all, |log|, h);
    if Histories.Installs(w, StoreOf(w, log), op, h) {
      InstallsModify(w, StoreOf(w, log), op, h);
      Histories.ExtendedGrows(w, StoreOf(w, log), op, Histories.HistoryOf(w, log, |log|, h));
    }
  }

  lemma InstallsModify(w: World, st: Store, op: Histories.Op, h: Name)
    requires (op.Modify? ==> op.descs != []) && Histories.Installs(w, st, op, h)
    ensures op.Modify?
  {
    hide Histories.Step;
  }

  lemma CallCounts(w: World, s: Client, call: Call, h: Name)
    requires Joint(w, s) && Enabled(w, s, call)
    ensures var committed := LastClose(s, call) && FileOf(s.hs, call.fd) == h && AllWritten(s, call);
            Histories.Shaped(Next(w, s, call).log) &&
            VersionCount(w, Next(w, s, call).log, h) == VersionCount(w, s.log, h) + if committed then 1 else 0
  {
    hide Histories.At, Histories.LegalRun, VersionCount, Handles.Inv, NamesCurrent, KeysCurrent, FilesExist,
         AllWritten, Enabled, HandleStep, NextMems, Histories.Step;
    Histories.RunFacts(w, s.log);
    var ops := Requests(s, call);
    if ops == [] {
      assert s.log + ops == s.log;
    } else {
      RequestCounts(w, s.log, ops[0], h);
      if LastClose(s, call) {
        FlushDecides(w, s, call);
      }
    }
  }

  /** At any point of any run, a file has exactly as many versions as it had last closes, with
      something to flush, whose writes all went through: each makes one, and none is refused. */
  lemma {:induction false} VersionsAreCommits(w: World, calls: seq<Call>, states: seq<Client>, n: nat, h: Name)
    requires Run(w, calls, states) && n <= |calls|
    ensures Joint(w, states[n]) && Histories.Shaped(states[n].log)
    ensures VersionCount(w, states[n].log, h) == CommitCount(states, calls, n, h)
  {
    hide Joint, Next, Enabled, Fine, LastClose, AllWritten, Handles.Init;
    Reachable(w, calls, states, n);
    JointShaped(w, states[n]);
    if n == 0 {
    } else {
      VersionsAreCommits(w, calls, states, n - 1, h);
      assert Takes(w, states[n - 1], calls[n - 1], states[n]);
      CallCounts(w, states[n - 1], calls[n - 1], h);
    }
  }

  lemma JointShaped(w: World, s: Client)
    requires Joint(w, s)
    ensures Histories.Shaped(s.log)
  {
    hide Handles.Inv, NamesCurrent, KeysCurrent, FilesExist, Histories.Legal, Histories.At;
  }
}

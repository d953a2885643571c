/** File handles: the root directory, the table of in-memory inodes with their reference counts, and
    the table of file descriptors. */
module Handles {
  import opened Bytes

  const FD_TABLE_MAX := 256
  const FD_START := 10
  const ENOENT := -2
  const ENOMEM := -12
  const EEXIST := -17

  /** `table` gives the reference count of each in-memory inode, `fds` the file of each descriptor. */
  datatype Fs = Fs(dir: map<string, Name>, table: map<Name, nat>, fds: seq<Name>, fdCnt: nat)

  /** `flushed`: whether the cache of the file was flushed and its inode released. */
  datatype Reply = Reply(fs: Fs, ret: int, fh: nat, flushed: bool)

  function Refs(fs: Fs, h: Name): (n: nat) {
    if h in fs.table then fs.table[h] else 0
  }

  /** A new descriptor on file `h`, with one more reference. */
  function Attach(fs: Fs, h: Name): (r: Reply)
    requires fs.fdCnt + 1 < |fs.fds|
  {
    var fd := fs.fdCnt + 1;
    Reply(fs.(table := fs.table[h := Refs(fs, h) + 1], fds := fs.fds[fd := h], fdCnt := fd), 0, fd, false)
  }

  function CreateOp(fs: Fs, path: string, alloc: Option<Name>): (r: Reply)
    requires fs.fdCnt + 1 < |fs.fds|
  {
    if path in fs.dir then Reply(fs, EEXIST, 0, false)
    else if alloc.None? then Reply(fs, ENOMEM, 0, false)
    else Attach(fs.(dir := fs.dir[path := alloc.value], table := fs.table[alloc.value := 0]), alloc.value)
  }

  /** `loads`: whether the backend can supply the metadata of a file that is not in memory. */
  function OpenOp(fs: Fs, path: string, loads: bool): (r: Reply)
    requires fs.fdCnt + 1 < |fs.fds|
  {
    if path !in fs.dir || (fs.dir[path] !in fs.table && !loads) then Reply(fs, ENOENT, 0, false)
    else Attach(fs, fs.dir[path])
  }

  function GetAttrOp(fs: Fs, path: string): (r: Reply) {
    if path !in fs.dir then Reply(fs, ENOENT, 0, false)
    else Reply(fs.(table := fs.table[fs.dir[path] := Refs(fs, fs.dir[path])]), 0, 0, false)
  }

  function FlushOp(fs: Fs, fd: nat): (r: Reply)
    requires fd < |fs.fds| && Refs(fs, fs.fds[fd]) > 0
  {
    var h := fs.fds[fd];
    var n := Refs(fs, h) - 1;
    if n == 0 then Reply(fs.(table := fs.table - {h}, fds := fs.fds[fd := []]), 0, 0, true)
    else Reply(fs.(table := fs.table[h := n]), 0, fd, false)
  }

  class Dcfs {
    var dir: map<string, Name>
    var table: map<Name, nat>
    const fds: array<Name>
    var fdCnt: nat

    ghost function State(): (fs: Fs)
      reads this, fds
    {
      Fs(dir, table, fds[..], fdCnt)
    }

    constructor ()
      ensures fresh(fds) && State() == Fs(map[], map[], seq(FD_TABLE_MAX, i => []), FD_START)
    {
      dir, table, fdCnt := map[], map[], FD_START;
      fds := new Name[FD_TABLE_MAX](i => []);
    }

    /** Reference the inode and enter it under the next descriptor. */
    method NewHandle(h: Name) returns (fd: nat)
      requires fdCnt + 1 < fds.Length
      modifies this, fds
      ensures Reply(State(), 0, fd, false) == Attach(old(State()), h)
    {
      table := table[h := (if h in table then table[h] else 0) + 1];
      fdCnt := fdCnt + 1;
      fd := fdCnt;
      fds[fd] := h;
    }

    method Create(path: string, alloc: Option<Name>) returns (ret: int, fh: nat)
      requires fdCnt + 1 < fds.Length
      modifies this, fds
      ensures Reply(State(), ret, fh, false) == CreateOp(old(State()), path, alloc)
      ensures ret == (if path in old(dir) then EEXIST else if alloc.None? then ENOMEM else 0)
      ensures if ret == 0 then && dir == old(dir)[path := alloc.value] && table == old(table)[alloc.value := 1]
                               && fdCnt == fh == old(fdCnt) + 1 && fds[..] == old(fds[..])[fh := alloc.value]
              else State() == old(State())
    {
      if path in dir {
        return EEXIST, 0;
      }
      if alloc.None? {
        return ENOMEM, 0;
      }
      table := table[alloc.value := 0];
      dir := dir[path := alloc.value];
      fh := NewHandle(alloc.value);
      ret := 0;
    }

    method Open(path: string, loads: bool) returns (ret: int, fh: nat)
      requires fdCnt + 1 < fds.Length
      modifies this, fds
      ensures Reply(State(), ret, fh, false) == OpenOp(old(State()), path, loads)
      ensures ret == if path in dir && (dir[path] in old(table) || loads) then 0 else ENOENT
      ensures dir == old(dir)
      ensures if ret == 0 then var h := dir[path];
                               && table == old(table)[h := (if h in old(table) then old(table)[h] else 0) + 1]
                               && fdCnt == fh == old(fdCnt) + 1 && fds[..] == old(fds[..])[fh := h]
              else State() == old(State())
    {
      if path !in dir {
        return ENOENT, 0;
      }
      if dir[path] !in table && !loads {
        return ENOENT, 0;
      }
      fh := NewHandle(dir[path]);
      ret := 0;
    }

    /** Looks the file up and keeps its inode in memory, unreferenced. A file that cannot be loaded
        makes the code dereference null. */
    method GetAttr(path: string, loads: bool) returns (ret: int)
      requires path in dir ==> dir[path] in table || loads
      modifies this`table
      ensures Reply(State(), ret, 0, false) == GetAttrOp(old(State()), path)
      ensures ret == if path in dir then 0 else ENOENT
      ensures table == if ret == 0 && dir[path] !in old(table) then old(table)[dir[path] := 0] else old(table)
    {
      if path !in dir {
        return ENOENT;
      }
      if dir[path] !in table {
        table := table[dir[path] := 0];
      } else {
        assert table == table[dir[path] := table[dir[path]]];
      }
      ret := 0;
    }

    /** One flush: drop a reference; the last one flushes the cache, releases the inode and clears the
        descriptor. The precondition is the assertion in the reference count. */
    method Flush(fd: nat) returns (ret: int, fh: nat, flushed: bool)
      requires fd < fds.Length && fds[fd] in table && table[fds[fd]] > 0
      modifies this`table, fds
      ensures Reply(State(), ret, fh, flushed) == FlushOp(old(State()), fd)
      ensures ret == 0 && (flushed <==> old(table[fds[fd]]) == 1) && fh == (if flushed then 0 else fd)
      ensures var h := old(fds[fd]);
              if flushed then table == old(table) - {h} && fds[..] == old(fds[..])[fd := []]
              else table == old(table)[h := old(table)[h] - 1] && fds[..] == old(fds[..])
    {
      var h := fds[fd];
      table := table[h := table[h] - 1];
      ret, fh, flushed := 0, fd, false;
      if table[h] == 0 {
        table := table - {h};
        fds[fd] := [];
        fh, flushed := 0, true;
      }
    }
  }

  // ---- when a call succeeds ----

  /** A creation succeeds exactly for a path that does not exist, if the file can be allocated, and an
      open exactly for one that does, if its inode is in memory or can be loaded. Both keep every
      directory entry, and a call that fails changes nothing. */
  lemma SuccessExact(fs: Fs, path: string, alloc: Option<Name>, loads: bool)
    requires fs.fdCnt + 1 < |fs.fds|
    ensures var r := CreateOp(fs, path, alloc);
            && r.ret == (if path in fs.dir then EEXIST else if alloc.None? then ENOMEM else 0)
            && (forall p :: p in fs.dir ==> p in r.fs.dir && r.fs.dir[p] == fs.dir[p])
            && (if r.ret == 0 then r.fs.dir.Keys == fs.dir.Keys + {path} && r.fs.dir[path] == alloc.value
                else r.fs == fs)
    ensures var r := OpenOp(fs, path, loads);
            && r.ret == (if path in fs.dir && (fs.dir[path] in fs.table || loads) then 0 else ENOENT)
            && r.fs.dir == fs.dir && (r.ret != 0 ==> r.fs == fs)
            && (r.ret == 0 ==> r.fh == fs.fdCnt + 1 && r.fs.fds == fs.fds[r.fh := fs.dir[path]])
  {
  }

  // ---- runs ----

  datatype Step =
    | Create(path: string, alloc: Option<Name>)
    | Open(path: string, loads: bool)
    | GetAttr(path: string, loads: bool)
    | Flush(fd: nat)

  /** The file system with the descriptors that are open, the path each was opened by, and the files
      flushed so far. */
  datatype Sys = Sys(fs: Fs, open: set<nat>, paths: map<nat, string>, flushes: seq<Name>)

  function HandlesOf(s: Sys, h: Name): (r: set<nat>) {
    set fd | fd in s.open && fd < |s.fs.fds| && s.fs.fds[fd] == h
  }

  /** Each handle is flushed once, descriptors do not run out, and a new file has a name of its own. */
  ghost predicate Enabled(s: Sys, step: Step) {
    match step
    case Create(_, alloc) =>
      s.fs.fdCnt + 1 < |s.fs.fds| &&
      (alloc.Some? ==> alloc.value !in s.fs.table && forall p :: p in s.fs.dir ==> s.fs.dir[p] != alloc.value)
    case Open(_, _) => s.fs.fdCnt + 1 < |s.fs.fds|
    case GetAttr(path, loads) => path in s.fs.dir ==> s.fs.dir[path] in s.fs.table || loads
    case Flush(fd) => fd in s.open
  }

  /** Accounting: an inode is in memory for every open handle, and its reference count is the number
      of handles open on its file. */
  ghost predicate Inv(s: Sys) {
    && |s.fs.fds| == FD_TABLE_MAX
    && (forall fd :: fd in s.open ==> fd <= s.fs.fdCnt && fd < |s.fs.fds| && s.fs.fds[fd] in s.fs.table)
    && (forall h :: h in s.fs.table ==> s.fs.table[h] == |HandlesOf(s, h)|)
    && PathsKept(s)
  }

  /** Distinct paths are distinct files, and a handle stays on the file it was opened by: all handles
      opened by one path share one inode. */
  ghost predicate PathsKept(s: Sys) {
    && (forall p, q :: p in s.fs.dir && q in s.fs.dir && s.fs.dir[p] == s.fs.dir[q] ==> p == q)
    && (forall fd :: fd in s.open ==>
          fd < |s.fs.fds| && fd in s.paths && s.paths[fd] in s.fs.dir && s.fs.fds[fd] == s.fs.dir[s.paths[fd]])
  }

  function Init(): (s: Sys) {
    Sys(Fs(map[], map[], seq(FD_TABLE_MAX, i => []), FD_START), {}, map[], [])
  }

  function Opened(s: Sys, r: Reply, path: string): (t: Sys) {
    Sys(r.fs, s.open + {r.fh}, s.paths[r.fh := path], s.flushes)
  }

  ghost function Next(s: Sys, step: Step): (t: Sys)
    requires Inv(s) && Enabled(s, step)
  {
    match step
    case Create(path, alloc) =>
      var r := CreateOp(s.fs, path, alloc);
      if r.ret == 0 then Opened(s, r, path) else s.(fs := r.fs)
    case Open(path, loads) =>
      var r := OpenOp(s.fs, path, loads);
      if r.ret == 0 then Opened(s, r, path) else s.(fs := r.fs)
    case GetAttr(path, _) => s.(fs := GetAttrOp(s.fs, path).fs)
    case Flush(fd) =>
      UnrefSafe(s, fd);
      var r := FlushOp(s.fs, fd);
      Sys(r.fs, s.open - {fd}, s.paths, if r.flushed then s.flushes + [s.fs.fds[fd]] else s.flushes)
  }

  /** The assertion before a reference is dropped never fails: an open handle is itself a reference. */
  lemma UnrefSafe(s: Sys, fd: nat)
    requires Inv(s) && fd in s.open
    ensures Refs(s.fs, s.fs.fds[fd]) > 0
  {
    var h := s.fs.fds[fd];
    assert fd in HandlesOf(s, h);
    assert HandlesOf(s, h) != {};
  }

  /** A new handle adds one to its file and nothing to the others. */
  lemma AttachKeeps(s: Sys, path: string)
    requires Inv(s) && s.fs.fdCnt + 1 < |s.fs.fds| && path in s.fs.dir && s.fs.dir[path] in s.fs.table
    ensures Inv(Opened(s, Attach(s.fs, s.fs.dir[path]), path))
  {
    hide HandlesOf;
    var h := s.fs.dir[path];
    var t := Opened(s, Attach(s.fs, h), path);
    forall g | g in t.fs.table
      ensures t.fs.table[g] == |HandlesOf(t, g)|
    {
      HandlesAttached(s, path, h, g);
    }
  }

  lemma HandlesAttached(s: Sys, path: string, h: Name, g: Name)
    requires s.fs.fdCnt + 1 < |s.fs.fds| && forall fd :: fd in s.open ==> fd <= s.fs.fdCnt
    ensures |HandlesOf(Opened(s, Attach(s.fs, h), path), g)| == |HandlesOf(s, g)| + if g == h then 1 else 0
  {
    var r := Attach(s.fs, h);
    var t := Opened(s, r, path);
    var fd, a, b := r.fh, HandlesOf(s, g), HandlesOf(t, g);
    assert t.fs.fds == s.fs.fds[fd := h] && fd !in s.open;
    assert forall d :: d in s.open ==> t.fs.fds[d] == s.fs.fds[d];
    assert forall d :: d in b <==> d in a || (d == fd && g == h);
    assert b == if g == h then a + {fd} else a;
  }

  /** An unreferenced inode in memory changes no count. */
  lemma LoadKeeps(s: Sys, dir: map<string, Name>, h: Name)
    requires Inv(s) && h !in s.fs.table && PathsKept(s.(fs := s.fs.(dir := dir)))
    ensures Inv(s.(fs := s.fs.(dir := dir, table := s.fs.table[h := 0])))
  {
    var t := s.(fs := s.fs.(dir := dir, table := s.fs.table[h := 0]));
    assert HandlesOf(t, h) == {};
    forall g | g in t.fs.table
      ensures t.fs.table[g] == |HandlesOf(t, g)|
    {
      assert HandlesOf(t, g) == HandlesOf(s, g);
    }
  }

  lemma FlushKeeps(s: Sys, fd: nat)
    requires Inv(s) && fd in s.open
    ensures Inv(Next(s, Flush(fd)))
    ensures var h, t := s.fs.fds[fd], Next(s, Flush(fd));
            && (HandlesOf(s, h) == {fd} ==> t.flushes == s.flushes + [h] && h !in t.fs.table)
            && (HandlesOf(s, h) != {fd} ==> t.flushes == s.flushes && h in t.fs.table)
  {
    UnrefSafe(s, fd);
    var h, t := s.fs.fds[fd], Next(s, Flush(fd));
    assert fd in HandlesOf(s, h);
    LastOne(HandlesOf(s, h), fd);
    forall g | g in t.fs.table
      ensures t.fs.table[g] == |HandlesOf(t, g)|
    {
      HandlesDetached(s, fd, g);
    }
    forall d | d in t.open
      ensures d <= t.fs.fdCnt && d < |t.fs.fds| && t.fs.fds[d] in t.fs.table
    {
      assert s.fs.fds[d] == h ==> d in HandlesOf(s, h);
    }
  }

  lemma HandlesDetached(s: Sys, fd: nat, g: Name)
    requires Inv(s) && fd in s.open && g in Next(s, Flush(fd)).fs.table
    ensures |HandlesOf(Next(s, Flush(fd)), g)| == |HandlesOf(s, g)| - if g == s.fs.fds[fd] then 1 else 0
  {
    hide PathsKept;
    UnrefSafe(s, fd);
    var t, a := Next(s, Flush(fd)), HandlesOf(s, g);
    assert HandlesOf(t, g) == a - {fd};
    assert fd in a <==> g == s.fs.fds[fd];
  }

  lemma LastOne(a: set<nat>, x: nat)
    requires x in a
    ensures |a| == 1 <==> a == {x}
  {
    assert a == (a - {x}) + {x};
  }

  lemma CreateKeeps(s: Sys, path: string, alloc: Option<Name>)
    requires Inv(s) && Enabled(s, Create(path, alloc))
    ensures Inv(Next(s, Create(path, alloc)))
  {
    hide HandlesOf;
    if path !in s.fs.dir && alloc.Some? {
      var dir := s.fs.dir[path := alloc.value];
      LoadKeeps(s, dir, alloc.value);
      AttachKeeps(s.(fs := s.fs.(dir := dir, table := s.fs.table[alloc.value := 0])), path);
    }
  }

  lemma OpenKeeps(s: Sys, path: string, loads: bool)
    requires Inv(s) && Enabled(s, Open(path, loads))
    ensures Inv(Next(s, Open(path, loads)))
  {
    hide HandlesOf, PathsKept;
    if path in s.fs.dir {
      var h := s.fs.dir[path];
      if h in s.fs.table {
        AttachKeeps(s, path);
      } else if loads {
        LoadKeeps(s, s.fs.dir, h);
        AttachKeeps(s.(fs := s.fs.(table := s.fs.table[h := 0])), path);
        assert s.fs.table[h := 0][h := 1] == s.fs.table[h := 1];
      }
    }
  }

  lemma GetAttrKeeps(s: Sys, path: string, loads: bool)
    requires Inv(s) && Enabled(s, GetAttr(path, loads))
    ensures Inv(Next(s, GetAttr(path, loads)))
  {
    hide HandlesOf, PathsKept;
    if path in s.fs.dir {
      var h := s.fs.dir[path];
      if h in s.fs.table {
        assert s.fs.table[h := s.fs.table[h]] == s.fs.table;
      } else {
        LoadKeeps(s, s.fs.dir, h);
      }
    }
  }

  lemma StepKeeps(s: Sys, step: Step)
    requires Inv(s) && Enabled(s, step)
    ensures Inv(Next(s, step))
    ensures !step.Flush? ==> Next(s, step).flushes == s.flushes && s.open <= Next(s, step).open
  {
    hide Inv, HandlesOf;
    match step
    case Create(path, alloc) => CreateKeeps(s, path, alloc);
    case Open(path, loads) => OpenKeeps(s, path, loads);
    case GetAttr(path, loads) => GetAttrKeeps(s, path, loads);
    case Flush(fd) => FlushKeeps(s, fd);
  }

  ghost predicate Run(steps: seq<Step>, states: seq<Sys>) {
    && |states| == |steps| + 1 && states[0] == Init()
    && forall n :: 0 <= n < |steps| ==> Takes(states[n], steps[n], states[n + 1])
  }

  /** One step of a run. `Next` is defined on accounted states; `Accounting` shows there are no others. */
  ghost predicate Takes(s: Sys, step: Step, t: Sys) {
    Inv(s) ==> Enabled(s, step) && t == Next(s, step)
  }

  lemma InitInv()
    ensures Inv(Init())
  {
  }

  /** Handle accounting, in every reachable state of every run. */
  lemma {:induction false} Accounting(steps: seq<Step>, states: seq<Sys>, n: nat)
    requires Run(steps, states) && n < |states|
    ensures Inv(states[n])
  {
    hide Inv, Next, Enabled, Init;
    if n == 0 {
      InitInv();
    } else {
      Accounting(steps, states, n - 1);
      assert Takes(states[n - 1], steps[n - 1], states[n]);
      StepKeeps(states[n - 1], steps[n - 1]);
    }
  }

  /** A file once entered stays: a directory entry is the same in every later state. */
  lemma {:induction false} EntriesStay(steps: seq<Step>, states: seq<Sys>, m: nat, n: nat, path: string)
    requires Run(steps, states) && m <= n < |states| && path in states[m].fs.dir
    ensures path in states[n].fs.dir && states[n].fs.dir[path] == states[m].fs.dir[path]
    decreases n
  {
    hide Inv, Next, Enabled, Init;
    if m == n {
    } else {
      EntriesStay(steps, states, m, n - 1, path);
      Accounting(steps, states, n - 1);
      assert Takes(states[n - 1], steps[n - 1], states[n]);
      StepKeepsEntries(states[n - 1], steps[n - 1], path);
    }
  }

  lemma StepKeepsEntries(s: Sys, step: Step, path: string)
    requires Inv(s) && Enabled(s, step) && path in s.fs.dir
    ensures path in Next(s, step).fs.dir && Next(s, step).fs.dir[path] == s.fs.dir[path]
  {
    hide Inv, HandlesOf;
    if step.Flush? {
      UnrefSafe(s, step.fd);
    }
  }

  /** At every step of every run: a creation and an open succeed exactly as stated, and the descriptor
      they return is open on the file of the path and was not open before. */
  lemma OpensExact(steps: seq<Step>, states: seq<Sys>, n: nat)
    requires Run(steps, states) && n < |steps| && (steps[n].Create? || steps[n].Open?)
    ensures Inv(states[n]) && Enabled(states[n], steps[n])
    ensures var s, t, path := states[n], states[n + 1], steps[n].path;
            var success := if steps[n].Create? then path !in s.fs.dir && steps[n].alloc.Some?
                           else path in s.fs.dir && (s.fs.dir[path] in s.fs.table || steps[n].loads);
            if success
            then var fd := s.fs.fdCnt + 1;
                 && fd !in s.open && t.open == s.open + {fd} && path in t.fs.dir
                 && fd < |t.fs.fds| && t.fs.fds[fd] == t.fs.dir[path]
                 && (steps[n].Create? ==> t.fs.dir[path] == steps[n].alloc.value)
            else t == s
  {
    hide Inv, HandlesOf, Init;
    Accounting(steps, states, n);
    assert Takes(states[n], steps[n], states[n + 1]);
    NewDescriptor(states[n]);
  }

  lemma NewDescriptor(s: Sys)
    requires Inv(s)
    ensures s.fs.fdCnt + 1 !in s.open
  {
  }

  /** The cache of a file is flushed exactly when its last open handle is closed, at any point of any
      run, and the reference-count assertion holds there. */
  lemma FlushedAtLastClose(steps: seq<Step>, states: seq<Sys>, n: nat, h: Name)
    requires Run(steps, states) && n < |steps|
    ensures Inv(states[n])
    ensures states[n + 1].flushes == states[n].flushes + [h] <==>
              steps[n].Flush? && steps[n].fd in states[n].open && steps[n].fd < |states[n].fs.fds|
              && states[n].fs.fds[steps[n].fd] == h && HandlesOf(states[n], h) == {steps[n].fd}
    ensures steps[n].Flush? ==> Refs(states[n].fs, states[n].fs.fds[steps[n].fd]) > 0
  {
    hide Next, Init, HandlesOf;
    Accounting(steps, states, n);
    var s, step := states[n], steps[n];
    assert Takes(s, step, states[n + 1]);
    StepKeeps(s, step);
    if step.Flush? {
      FlushKeeps(s, step.fd);
      UnrefSafe(s, step.fd);
      var g, k := s.fs.fds[step.fd], |s.flushes|;
      assert (s.flushes + [g])[k] == g && (s.flushes + [h])[k] == h;
    }
    assert |s.flushes + [h]| != |s.flushes|;
  }
}

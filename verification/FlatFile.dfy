/** What a file is meant to be, a flat byte sequence, and what the block cache makes of it.

    A write that crosses a block boundary copies one byte more than asked into its last block, so
    the bytes in memory behind the caller's buffer matter. `mem` is the memory from the buffer on:
    `mem[..size]` is the caller's data and `mem[size]` is whatever follows it. */
module FlatFile {
  import opened Bytes
  import opened BlockLayout

  datatype FileOp =
    | Write(mem: seq<byte>, offset: nat, size: nat)
    | Read(offset: nat, size: nat)

  /** The callee's own assertion, and one readable byte behind the buffer. */
  predicate Proper(op: FileOp) {
    op.size > 0 && (op.Write? ==> op.size < |op.mem|)
  }

  predicate Crosses(bs: nat, offset: nat, size: nat)
    requires bs > 0
  {
    BlockIndex(bs, offset) < BlockIndex(bs, offset + size)
  }

  /** How many bytes a transfer of `size` bytes at `offset` moves beyond the ones asked for. */
  function Overshoot(bs: nat, offset: nat, size: nat): (n: nat)
    requires bs > 0
    ensures n <= 1
  {
    if Crosses(bs, offset, size) then 1 else 0
  }

  /** Write offsets beyond the end are pulled back to the end. */
  function Clamp(offset: nat, len: nat): (at: nat)
    ensures at <= len && at <= offset
  {
    if offset >= len then len else offset
  }

  /** The intended write: overwrite in place, extend at the end. */
  function FlatWrite(c: seq<byte>, mem: seq<byte>, offset: nat, size: nat): (r: seq<byte>)
    requires size <= |mem|
  {
    var at := Clamp(offset, |c|);
    c[..at] + mem[..size] + (if at + size < |c| then c[at + size..] else [])
  }

  /** The write as coded: one stray byte lands behind a block-crossing write that ends inside the file. */
  function CodedWrite(bs: nat, c: seq<byte>, mem: seq<byte>, offset: nat, size: nat): (r: seq<byte>)
    requires bs > 0 && size < |mem|
  {
    var at := Clamp(offset, |c|);
    var n := size + Overshoot(bs, at, size);
    if at + size < |c| then c[..at] + mem[..n] + c[at + n..] else c[..at] + mem[..size]
  }

  /** Reads are cut at the end of the file. */
  function FlatRead(c: seq<byte>, offset: nat, size: nat): (r: seq<byte>)
  {
    if offset >= |c| then []
    else if offset + size > |c| then c[offset..]
    else c[offset..offset + size]
  }

  /** What the intended write does, byte by byte: a write at or beyond the end appends; one that starts
      inside the file overwrites in place and extends the file only by what it reaches beyond. */
  lemma FlatWriteBytes(c: seq<byte>, mem: seq<byte>, offset: nat, size: nat)
    requires size <= |mem|
    ensures var r := FlatWrite(c, mem, offset, size);
            && (offset >= |c| ==> r == c + mem[..size])
            && (offset < |c| ==> |r| == if offset + size > |c| then offset + size else |c|)
            && (offset < |c| ==> forall i :: 0 <= i < |r| ==>
                  r[i] == if offset <= i < offset + size then mem[i - offset] else c[i])
  {
  }

  /** What a read returns: as many bytes as were asked for and as the file has from there on, each
      from its own place. */
  lemma FlatReadBytes(c: seq<byte>, offset: nat, size: nat)
    ensures var r := FlatRead(c, offset, size);
            && |r| == (if offset >= |c| then 0 else if |c| - offset < size then |c| - offset else size)
            && forall j :: 0 <= j < |r| ==> r[j] == c[offset + j]
  {
  }

  /** What the coded write does, byte by byte. It is the intended one, but if the write crosses a block
      boundary and ends inside the file, the byte behind it is the one behind the caller's buffer. */
  lemma CodedWriteBytes(bs: nat, c: seq<byte>, mem: seq<byte>, offset: nat, size: nat)
    requires bs > 0 && size < |mem|
    ensures var r := CodedWrite(bs, c, mem, offset, size);
            && (offset >= |c| ==> r == c + mem[..size])
            && (offset < |c| ==> |r| == if offset + size > |c| then offset + size else |c|)
            && (offset < |c| ==> forall i :: 0 <= i < |r| ==>
                  r[i] == if offset <= i < offset + size then mem[i - offset]
                          else if i == offset + size && offset % bs + size >= bs then mem[size] else c[i])
  {
    hide Crosses;
    CrossesIs(bs, offset, size);
  }

  /** A range crosses a block boundary when its offset in the first block and its size reach the next. */
  lemma CrossesIs(bs: nat, offset: nat, size: nat)
    requires bs > 0
    ensures Crosses(bs, offset, size) <==> offset % bs + size >= bs
  {
    var st, ed := BlockIndex(bs, offset), BlockIndex(bs, offset + size);
    assert BlockOffset(bs, offset) == offset % bs;
    SplitRange(bs, offset, size);
    hide Start, BlockIndex, BlockOffset;
    StartNext(bs, st);
    if st < ed {
      StartLe(bs, st + 1, ed);
    }
  }

  /** Read your writes: what was written is read back from where it went, by intention and as coded. */
  lemma ReadBack(bs: nat, c: seq<byte>, mem: seq<byte>, offset: nat, size: nat)
    requires bs > 0 && 0 < size < |mem|
    ensures var at := if offset < |c| then offset else |c|;
            && FlatRead(FlatWrite(c, mem, offset, size), at, size) == mem[..size]
            && FlatRead(CodedWrite(bs, c, mem, offset, size), at, size) == mem[..size]
  {
    hide FlatRead, FlatWrite, CodedWrite;
    var at := if offset < |c| then offset else |c|;
    FlatWriteBytes(c, mem, offset, size);
    CodedWriteBytes(bs, c, mem, offset, size);
    FlatReadBytes(FlatWrite(c, mem, offset, size), at, size);
    FlatReadBytes(CodedWrite(bs, c, mem, offset, size), at, size);
  }

  /** Whether a write on a file of `len` bytes also changes the byte behind it. */
  predicate Spills(bs: nat, len: nat, offset: nat, size: nat)
    requires bs > 0
  {
    var at := Clamp(offset, len);
    at + size < len && Crosses(bs, at, size)
  }

  lemma SpillsIs(bs: nat, len: nat, offset: nat, size: nat)
    requires bs > 0
    ensures Spills(bs, len, offset, size) <==>
              offset < len && offset + size < len && offset % bs + size >= bs
  {
    hide Crosses;
    CrossesIs(bs, offset, size);
  }

  /** Exactly the writes that do not spill store what was asked, whatever lies behind the buffer. */
  lemma OneWriteExact(bs: nat, c: seq<byte>, mem: seq<byte>, offset: nat, size: nat)
    requires bs > 0 && size < |mem|
    ensures !Spills(bs, |c|, offset, size)
       <==> forall mem' :: size < |mem'| && mem'[..size] == mem[..size] ==>
              CodedWrite(bs, c, mem', offset, size) == FlatWrite(c, mem, offset, size)
  {
    hide CodedWrite, FlatWrite, Crosses;
    if Spills(bs, |c|, offset, size) {
      var x: byte := if c[Clamp(offset, |c|) + size] == 0 then 1 else 0;
      SpillStores(bs, c, mem[size := x], mem, offset, size);
      assert mem[size := x][..size] == mem[..size];
    } else {
      forall mem' | size < |mem'| && mem'[..size] == mem[..size]
        ensures CodedWrite(bs, c, mem', offset, size) == FlatWrite(c, mem, offset, size)
      {
        NoSpillStores(bs, c, mem', mem, offset, size);
      }
    }
  }

  lemma NoSpillStores(bs: nat, c: seq<byte>, mem': seq<byte>, mem: seq<byte>, offset: nat, size: nat)
    requires bs > 0 && size < |mem| && size < |mem'| && mem'[..size] == mem[..size]
    requires !Spills(bs, |c|, offset, size)
    ensures CodedWrite(bs, c, mem', offset, size) == FlatWrite(c, mem, offset, size)
  {
    hide Crosses;
  }

  lemma SpillStores(bs: nat, c: seq<byte>, mem': seq<byte>, mem: seq<byte>, offset: nat, size: nat)
    requires bs > 0 && size < |mem| && size < |mem'| && Spills(bs, |c|, offset, size)
    requires mem'[size] != c[Clamp(offset, |c|) + size]
    ensures CodedWrite(bs, c, mem', offset, size) != FlatWrite(c, mem, offset, size)
  {
    hide Crosses;
    var at := Clamp(offset, |c|);
    assert CodedWrite(bs, c, mem', offset, size)[at + size] == mem'[size];
    assert FlatWrite(c, mem, offset, size)[at + size] == c[at + size];
  }

  function FlatStep(c: seq<byte>, op: FileOp): (r: seq<byte>)
    requires Proper(op)
  {
    match op
    case Write(mem, offset, size) => FlatWrite(c, mem, offset, size)
    case Read(_, _) => c
  }

  function CodedStep(bs: nat, c: seq<byte>, op: FileOp): (r: seq<byte>)
    requires bs > 0 && Proper(op)
    ensures |r| == |FlatStep(c, op)|
  {
    match op
    case Write(mem, offset, size) => CodedWrite(bs, c, mem, offset, size)
    case Read(_, _) => c
  }

  /** The contents after the first `n` operations, as intended and as coded. */
  function FlatRun(c: seq<byte>, ops: seq<FileOp>, n: nat): (r: seq<byte>)
    requires n <= |ops| && forall i :: 0 <= i < |ops| ==> Proper(ops[i])
  {
    if n == 0 then c else FlatStep(FlatRun(c, ops, n - 1), ops[n - 1])
  }

  function CodedRun(bs: nat, c: seq<byte>, ops: seq<FileOp>, n: nat): (r: seq<byte>)
    requires bs > 0 && n <= |ops| && forall i :: 0 <= i < |ops| ==> Proper(ops[i])
  {
    if n == 0 then c else CodedStep(bs, CodedRun(bs, c, ops, n - 1), ops[n - 1])
  }

  /** The same operations with other bytes behind the callers' buffers. */
  predicate SameRequests(ops: seq<FileOp>, ops': seq<FileOp>) {
    && |ops| == |ops'|
    && forall i :: 0 <= i < |ops| ==>
         && Proper(ops[i]) && Proper(ops'[i])
         && ops[i].offset == ops'[i].offset && ops[i].size == ops'[i].size
         && (ops[i].Write? <==> ops'[i].Write?)
         && (ops[i].Write? ==> ops[i].mem[..ops[i].size] == ops'[i].mem[..ops[i].size])
  }

  /** No operation of the run spills; a caller can decide this from sizes alone. */
  predicate NoSpill(bs: nat, c: seq<byte>, ops: seq<FileOp>)
    requires bs > 0 && forall i :: 0 <= i < |ops| ==> Proper(ops[i])
  {
    forall i :: 0 <= i < |ops| && ops[i].Write? ==>
      !Spills(bs, |FlatRun(c, ops, i)|, ops[i].offset, ops[i].size)
  }

  ghost predicate AgreesThroughout(bs: nat, c: seq<byte>, ops: seq<FileOp>, ops': seq<FileOp>)
    requires bs > 0 && SameRequests(ops, ops')
  {
    forall n :: 0 <= n <= |ops| ==> CodedRun(bs, c, ops', n) == FlatRun(c, ops, n)
  }

  /** Cache refinement over whole runs: any interleaving of writes and reads shows the flat file
      after every operation, whatever lies behind the buffers, if and only if no write spills. */
  lemma RunExact(bs: nat, c: seq<byte>, ops: seq<FileOp>)
    requires bs > 0 && forall i :: 0 <= i < |ops| ==> Proper(ops[i])
    ensures NoSpill(bs, c, ops)
       <==> forall ops' :: SameRequests(ops, ops') ==> AgreesThroughout(bs, c, ops, ops')
  {
    if NoSpill(bs, c, ops) {
      forall ops' | SameRequests(ops, ops')
        ensures AgreesThroughout(bs, c, ops, ops')
      {
        forall n | 0 <= n <= |ops|
          ensures CodedRun(bs, c, ops', n) == FlatRun(c, ops, n)
        {
          NoSpillAgrees(bs, c, ops, ops', n);
        }
      }
    } else {
      SpillShows(bs, c, ops);
    }
  }

  lemma {:induction false} NoSpillAgrees(bs: nat, c: seq<byte>, ops: seq<FileOp>, ops': seq<FileOp>, n: nat)
    requires bs > 0 && SameRequests(ops, ops') && NoSpill(bs, c, ops) && n <= |ops|
    ensures CodedRun(bs, c, ops', n) == FlatRun(c, ops, n)
  {
    if n == 0 {
    } else {
      NoSpillAgrees(bs, c, ops, ops', n - 1);
      var a, b := ops[n - 1], ops'[n - 1];
      if a.Write? {
        var d := FlatRun(c, ops, n - 1);
        OneWriteExact(bs, d, b.mem, b.offset, b.size);
        assert CodedWrite(bs, d, b.mem, b.offset, b.size) == FlatWrite(d, b.mem, b.offset, b.size);
      }
    }
  }

  lemma SpillShows(bs: nat, c: seq<byte>, ops: seq<FileOp>)
    requires bs > 0 && forall i :: 0 <= i < |ops| ==> Proper(ops[i])
    requires !NoSpill(bs, c, ops)
    ensures exists ops' :: SameRequests(ops, ops') && !AgreesThroughout(bs, c, ops, ops')
  {
    hide CodedRun, FlatRun, CodedWrite, FlatWrite, Spills;
    var i :| 0 <= i < |ops| && ops[i].Write? && Spills(bs, |FlatRun(c, ops, i)|, ops[i].offset, ops[i].size);
    var d, op := FlatRun(c, ops, i), ops[i];
    OneWriteExact(bs, d, op.mem, op.offset, op.size);
    var mem' :| op.size < |mem'| && mem'[..op.size] == op.mem[..op.size] &&
      CodedWrite(bs, d, mem', op.offset, op.size) != FlatWrite(d, op.mem, op.offset, op.size);
    var ops' := ops[i := Write(mem', op.offset, op.size)];
    assert SameRequests(ops, ops');
    RunUnfolds(bs, c, ops', i);
    FlatUnfolds(c, ops, i);
    assert CodedRun(bs, c, ops', i) != d || CodedRun(bs, c, ops', i + 1) != FlatRun(c, ops, i + 1);
    assert !AgreesThroughout(bs, c, ops, ops');
  }

  lemma RunUnfolds(bs: nat, c: seq<byte>, ops: seq<FileOp>, n: nat)
    requires bs > 0 && (forall i :: 0 <= i < |ops| ==> Proper(ops[i])) && n < |ops|
    ensures CodedRun(bs, c, ops, n + 1) == CodedStep(bs, CodedRun(bs, c, ops, n), ops[n])
  {
    hide CodedStep;
  }

  lemma FlatUnfolds(c: seq<byte>, ops: seq<FileOp>, n: nat)
    requires (forall i :: 0 <= i < |ops| ==> Proper(ops[i])) && n < |ops|
    ensures FlatRun(c, ops, n + 1) == FlatStep(FlatRun(c, ops, n), ops[n])
  {
    hide FlatStep;
  }
}

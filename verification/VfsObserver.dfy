// No written payload escapes the observer, and descriptors are never reused.

module VfsObserver {
  import opened Common
  import opened VfsModel

  // ----- descriptors -----

  predicate FdsOk(v: Fs) {
    v.nextFd >= 3 && forall fd :: fd in v.handles ==> fd < v.nextFd
  }

  lemma StepKeepsFds(v: Fs, op: Op)
    requires FdsOk(v)
    ensures FdsOk(Step(v, op)) && v.nextFd <= Step(v, op).nextFd
  {
    hide LineEnd, Overwrite, HasFlag;
  }

  /** The descriptor an operation hands out of its own choice, if any. */
  function HandsOut(v: Fs, op: Op): Option<int> {
    match op
    case OpenOp(path, flags, provided) => var fd := Open(v, path, flags, provided).1; if fd == 0 then None else Some(fd)
    case DupOp(fd) => var fd' := Dup(v, fd).1; if fd' == 0 then None else Some(fd')
    case _ => None
  }

  ghost predicate IsRun(states: seq<Fs>, ops: seq<Op>) {
    |states| == |ops| + 1 && forall i :: 0 <= i < |ops| ==> states[i + 1] == Step(states[i], ops[i])
  }

  lemma {:induction false} FdsOverRuns(states: seq<Fs>, ops: seq<Op>, i: nat, j: nat)
    requires IsRun(states, ops) && FdsOk(states[0]) && i <= j < |states|
    ensures FdsOk(states[i]) && FdsOk(states[j]) && states[i].nextFd <= states[j].nextFd
    decreases j
  {
    hide Step, FdsOk;
    if i < j {
      FdsOverRuns(states, ops, i, j - 1);
      StepKeepsFds(states[j - 1], ops[j - 1]);
    } else if 0 < j {
      FdsOverRuns(states, ops, j - 1, j - 1);
      StepKeepsFds(states[j - 1], ops[j - 1]);
    }
  }

  lemma HandedOutIsNext(v: Fs, op: Op)
    requires FdsOk(v) && HandsOut(v, op).Some?
    ensures HandsOut(v, op).value == v.nextFd && v.nextFd !in v.handles && v.nextFd >= 3
    ensures Step(v, op).nextFd == v.nextFd + 1 && v.nextFd in Step(v, op).handles
  {
    hide HasFlag;
  }

  /** Over every run, what open and dup hand out is at least 3, was not open before,
      and differs from everything they handed out earlier. */
  lemma FreshDescriptors(states: seq<Fs>, ops: seq<Op>, i: nat, j: nat)
    requires IsRun(states, ops) && FdsOk(states[0]) && i < j < |ops|
    requires HandsOut(states[i], ops[i]).Some? && HandsOut(states[j], ops[j]).Some?
    ensures HandsOut(states[j], ops[j]).value >= 3
    ensures HandsOut(states[j], ops[j]).value !in states[j].handles
    ensures HandsOut(states[j], ops[j]).value > HandsOut(states[i], ops[i]).value
  {
    hide Step, FdsOk, HandsOut;
    FdsOverRuns(states, ops, i, j);
    FdsOverRuns(states, ops, i + 1, j);
    HandedOutIsNext(states[i], ops[i]);
    HandedOutIsNext(states[j], ops[j]);
  }

  // ----- what the observer has seen -----

  function LastSeen(log: seq<Observation>, path: string): Option<Data> {
    if log == [] then None
    else if log[|log| - 1].path == path then Some(log[|log| - 1].content)
    else LastSeen(log[..|log| - 1], path)
  }

  ghost predicate DirtyOpen(v: Fs, path: string) {
    exists fd :: fd in v.handles && v.handles[fd].writable && v.handles[fd].dirty && v.handles[fd].path == path
  }

  /** The observer knows the present content of `path` or will be told: a dirty handle
      is open, or the last report equals what is stored. */
  ghost predicate Covered(v: Fs, path: string) {
    path in v.store && (DirtyOpen(v, path) || LastSeen(v.log, path) == Some(v.store[path]))
  }

  /** Replaces the content of a path behind the observer's back. */
  predicate Clobbers(v: Fs, op: Op, path: string) {
    match op
    case OpenOp(p, flags, _) => p == path && WantsWrite(flags) && HasFlag(flags, TRUNC)
    case AddFileOp(p, _) => p == path
    case UnlinkOp(p) => p == path
    case _ => false
  }

  predicate Writes(v: Fs, op: Op, path: string) {
    op.WriteOp? && op.fd in v.handles && v.handles[op.fd].writable && v.handles[op.fd].path == path
  }

  lemma SeenAppend(log: seq<Observation>, o: Observation, path: string)
    ensures LastSeen(log + [o], path) == if o.path == path then Some(o.content) else LastSeen(log, path)
  {
    assert (log + [o])[..|log|] == log;
  }

  lemma CloseCovers(v: Fs, fd: int, path: string)
    requires Covered(v, path)
    ensures Covered(Close(v, fd), path)
  {
    hide LastSeen;
    var v' := Close(v, fd);
    if fd in v.handles {
      var h := v.handles[fd];
      if h.writable && h.dirty {
        SeenAppend(v.log, Observation(h.path, v'.store[h.path]), path);
      }
      if DirtyOpen(v, path) && !(h.writable && h.dirty && h.path == path) {
        var f :| f in v.handles && v.handles[f].writable && v.handles[f].dirty && v.handles[f].path == path;
        assert f in v'.handles && v'.handles[f] == v.handles[f];
      }
    }
  }

  // A dirty handle stays dirty when handles are only added or moved.
  lemma DirtyStays(v: Fs, v': Fs, path: string)
    requires DirtyOpen(v, path)
    requires forall fd :: fd in v.handles && v.handles[fd].dirty ==>
      fd in v'.handles && v'.handles[fd] == v.handles[fd].(pos := v'.handles[fd].pos)
    ensures DirtyOpen(v', path)
  {
    var f :| f in v.handles && v.handles[f].writable && v.handles[f].dirty && v.handles[f].path == path;
    assert f in v'.handles && v'.handles[f].dirty;
  }

  lemma AddHandleCovers(v: Fs, h: Handle, path: string)
    requires FdsOk(v) && Covered(v, path)
    ensures Covered(AddHandle(v, h).0, path)
  {
    hide LastSeen;
    if DirtyOpen(v, path) { DirtyStays(v, AddHandle(v, h).0, path); }
  }

  lemma Dup2Covers(v: Fs, fd: int, target: int, path: string)
    requires Covered(v, path)
    ensures Covered(Dup2(v, fd, target).0, path)
  {
    hide LastSeen;
    if fd in v.handles && fd != target {
      CloseCovers(v, target, path);
      var v1, v2 := Close(v, target), Dup2(v, fd, target).0;
      if DirtyOpen(v1, path) {
        var f :| f in v1.handles && v1.handles[f].writable && v1.handles[f].dirty && v1.handles[f].path == path;
        assert f != target;
        assert f in v2.handles && v2.handles[f] == v1.handles[f];
      }
    }
  }

  lemma MoveCovers(v: Fs, fd: int, pos: nat, path: string)
    requires Covered(v, path) && fd in v.handles
    ensures Covered(MoveTo(v, fd, pos), path)
  {
    hide LastSeen;
    if DirtyOpen(v, path) { DirtyStays(v, MoveTo(v, fd, pos), path); }
  }

  lemma WriteCovers(v: Fs, fd: int, data: Data, path: string)
    requires Covered(v, path) || Writes(v, WriteOp(fd, data), path)
    ensures Covered(Write(v, fd, data).0, path)
  {
    hide LastSeen, Overwrite;
    var v' := Write(v, fd, data).0;
    if Writes(v, WriteOp(fd, data), path) {
      assert fd in v'.handles && v'.handles[fd].writable && v'.handles[fd].dirty && v'.handles[fd].path == path;
    } else if DirtyOpen(v, path) {
      var f :| f in v.handles && v.handles[f].writable && v.handles[f].dirty && v.handles[f].path == path;
      assert f in v'.handles && v'.handles[f].writable && v'.handles[f].dirty && v'.handles[f].path == path;
    }
  }

  lemma OpenCovers(v: Fs, path': string, flags: nat, provided: Option<Data>, path: string)
    requires FdsOk(v) && Covered(v, path) && !Clobbers(v, OpenOp(path', flags, provided), path)
    ensures Covered(Open(v, path', flags, provided).0, path)
  {
    hide LastSeen, HasFlag, DirtyOpen;
    if WantsWrite(flags) {
      var content := if path' !in v.store || HasFlag(flags, TRUNC) then [] else v.store[path'];
      var v1 := v.(store := v.store[path' := content]);
      StoreCovers(v, path', content, path);
      AddHandleCovers(v1, Handle(path', [], if HasFlag(flags, APPEND) then |content| else 0, true, false, false), path);
    } else if path' in v.store {
      AddHandleCovers(v, Handle(path', [], 0, false, false, false), path);
    } else if provided.Some? {
      AddHandleCovers(v, Handle("", provided.value, 0, false, true, false), path);
    }
  }

  lemma StoreCovers(v: Fs, path': string, content: Data, path: string)
    requires Covered(v, path) && (path' == path ==> content == v.store[path])
    ensures Covered(v.(store := v.store[path' := content]), path)
  {
    hide LastSeen;
    var v' := v.(store := v.store[path' := content]);
    if DirtyOpen(v, path) { DirtyStays(v, v', path); }
  }

  lemma StepCovers(v: Fs, op: Op, path: string)
    requires FdsOk(v) && (Covered(v, path) || Writes(v, op, path)) && !Clobbers(v, op, path)
    ensures Covered(Step(v, op), path)
  {
    hide Covered, LastSeen, LineEnd, Overwrite, HasFlag, Open, Close, Dup2, Write, Clobbers, MoveTo, AddHandle;
    match op
    case OpenOp(p, flags, provided) => OpenCovers(v, p, flags, provided, path);
    case DupOp(fd) => if fd in v.handles { AddHandleCovers(v, v.handles[fd], path); }
    case Dup2Op(fd, target) => Dup2Covers(v, fd, target, path);
    case ReadOp(fd, n) =>
      if fd in v.handles && v.handles[fd].pos <= |DataOf(v, v.handles[fd])| {
        MoveCovers(v, fd, v.handles[fd].pos + Min(n, |DataOf(v, v.handles[fd])| - v.handles[fd].pos), path);
      }
    case WriteOp(fd, data) => WriteCovers(v, fd, data, path);
    case GetsOp(fd, max) =>
      if fd in v.handles && max > 0 && v.handles[fd].pos < |DataOf(v, v.handles[fd])| {
        MoveCovers(v, fd, LineEnd(DataOf(v, v.handles[fd]), v.handles[fd].pos, max - 1), path);
      }
    case SeekOp(fd, pos) => if fd in v.handles { MoveCovers(v, fd, Min(pos, |DataOf(v, v.handles[fd])|), path); }
    case CloseOp(fd) => CloseCovers(v, fd, path);
    case AddFileOp(p, content) => OtherFile(v, p, content, path);
    case UnlinkOp(p) => OtherUnlink(v, p, path);
  }

  lemma OtherFile(v: Fs, p: string, content: Data, path: string)
    requires Covered(v, path) && !Clobbers(v, AddFileOp(p, content), path)
    ensures Covered(AddFile(v, p, content), path)
  {
    hide Covered;
    StoreCovers(v, p, content, path);
  }

  lemma OtherUnlink(v: Fs, p: string, path: string)
    requires Covered(v, path) && !Clobbers(v, UnlinkOp(p), path)
    ensures Covered(Unlink(v, p), path)
  {
    hide LastSeen;
    if DirtyOpen(v, path) { DirtyStays(v, Unlink(v, p), path); }
  }

  /** The observer theorem. Once step i has written to `path`, and as long as no
      truncating open, host overwrite or unlink of that path follows, the written
      content is reported or will be, through every dup, dup2 and interleaving. */
  lemma {:induction false} NothingEscapes(states: seq<Fs>, ops: seq<Op>, path: string, i: nat, j: nat)
    requires IsRun(states, ops) && FdsOk(states[0]) && i < j < |states|
    requires Writes(states[i], ops[i], path)
    requires forall k :: i < k < j ==> !Clobbers(states[k], ops[k], path)
    ensures Covered(states[j], path)
    decreases j
  {
    hide Step, FdsOk, Covered, Clobbers, Writes;
    FdsOverRuns(states, ops, i, j - 1);
    if i + 1 < j {
      NothingEscapes(states, ops, path, i, j - 1);
    } else {
      WriteIsNoClobber(states[i], ops[i], path);
    }
    StepCovers(states[j - 1], ops[j - 1], path);
  }

  lemma WriteIsNoClobber(v: Fs, op: Op, path: string)
    requires Writes(v, op, path)
    ensures !Clobbers(v, op, path)
  {
  }

  /** When every descriptor is closed, the observer has seen the stored content of
      each path written and not clobbered since. */
  lemma AllClosedAllSeen(states: seq<Fs>, ops: seq<Op>, path: string, i: nat, j: nat)
    requires IsRun(states, ops) && FdsOk(states[0]) && i < j < |states|
    requires Writes(states[i], ops[i], path)
    requires forall k :: i < k < j ==> !Clobbers(states[k], ops[k], path)
    requires states[j].handles == map[]
    ensures path in states[j].store && LastSeen(states[j].log, path) == Some(states[j].store[path])
  {
    hide Step, FdsOk, Clobbers, Writes, LastSeen;
    NothingEscapes(states, ops, path, i, j);
  }

  // ----- what a replaced content becomes -----

  /** The observer was once shown this content of the path. */
  ghost predicate Shown(log: seq<Observation>, path: string, content: Data) {
    Observation(path, content) in log
  }

  ghost predicate Stores(v: Fs, path: string, content: Data) {
    path in v.store && v.store[path] == content
  }

  lemma CloseReports(v: Fs, fd: int)
    ensures var v' := Close(v, fd);
      v'.log == v.log || exists o :: v'.log == v.log + [o] && Stores(v', o.path, o.content)
  {
    var v' := Close(v, fd);
    if v'.log != v.log {
      var o := v'.log[|v.log|];
      assert v'.log == v.log + [o] && Stores(v', o.path, o.content);
    }
  }

  /** A step reports at most one content, and that is the one stored after it. */
  lemma ReportsStored(v: Fs, op: Op)
    ensures var v' := Step(v, op);
      v'.log == v.log || exists o :: v'.log == v.log + [o] && Stores(v', o.path, o.content)
  {
    hide LineEnd, Overwrite, HasFlag;
    match op
    case CloseOp(fd) => CloseReports(v, fd);
    case Dup2Op(fd, target) => CloseReports(v, target);
    case _ =>
  }

  /** Content that is not stored any more is never reported later: whether the observer
      ever sees it was decided when it was replaced. */
  lemma {:induction false} GoneStaysUnseen(states: seq<Fs>, ops: seq<Op>, path: string, content: Data, i: nat, j: nat)
    requires IsRun(states, ops) && i <= j < |states|
    requires forall k :: i < k <= j ==> !Stores(states[k], path, content)
    ensures Shown(states[j].log, path, content) <==> Shown(states[i].log, path, content)
    decreases j - i
  {
    hide Step, Stores;
    if i < j {
      GoneStaysUnseen(states, ops, path, content, i, j - 1);
      ReportsStored(states[j - 1], ops[j - 1]);
    }
  }

  /** What a truncating open, host overwrite or unlink leaves in place of the content. */
  lemma ClobberReplaces(v: Fs, op: Op, path: string)
    requires Clobbers(v, op, path) && path in v.store
    ensures Stores(Step(v, op), path, v.store[path]) <==>
      (op.OpenOp? && v.store[path] == []) || (op.AddFileOp? && v.store[path] == op.content)
    ensures Step(v, op).log == v.log
  {
    hide HasFlag;
  }

  /** Exactly when a replaced payload escapes. Step i truncates, overwrites or unlinks a
      path that held something else than what it leaves there. Until the same content is
      stored there again, the observer has been shown it if and only if it had been shown
      it before step i, however many dirty handles are open and closed afterwards. */
  lemma ClobberedSeenIff(states: seq<Fs>, ops: seq<Op>, path: string, i: nat, j: nat)
    requires IsRun(states, ops) && i < j < |states|
    requires Clobbers(states[i], ops[i], path) && path in states[i].store
    requires ops[i].OpenOp? ==> states[i].store[path] != []
    requires ops[i].AddFileOp? ==> states[i].store[path] != ops[i].content
    requires forall k :: i + 1 < k <= j ==> !Stores(states[k], path, states[i].store[path])
    ensures Shown(states[j].log, path, states[i].store[path]) <==>
      Shown(states[i].log, path, states[i].store[path])
  {
    hide Step, Stores, Clobbers;
    ClobberReplaces(states[i], ops[i], path);
    GoneStaysUnseen(states, ops, path, states[i].store[path], i, j);
  }

  lemma {:induction false} LastSeenIsShown(log: seq<Observation>, path: string, content: Data)
    requires LastSeen(log, path) == Some(content)
    ensures Shown(log, path, content)
    decreases |log|
  {
    var n := |log| - 1;
    if log[n].path != path {
      LastSeenIsShown(log[..n], path, content);
      assert Observation(path, content) in log[..n];
    }
  }

  /** A written path without a dirty handle can be replaced without loss. */
  lemma ReportedBeforeClobber(states: seq<Fs>, ops: seq<Op>, path: string, i: nat, j: nat)
    requires IsRun(states, ops) && FdsOk(states[0]) && i < j < |states|
    requires Writes(states[i], ops[i], path)
    requires forall k :: i < k < j ==> !Clobbers(states[k], ops[k], path)
    requires !DirtyOpen(states[j], path)
    ensures path in states[j].store && Shown(states[j].log, path, states[j].store[path])
  {
    hide Step, FdsOk, Clobbers, Writes, LastSeen, Shown, DirtyOpen;
    NothingEscapes(states, ops, path, i, j);
    LastSeenIsShown(states[j].log, path, states[j].store[path]);
  }

  // ----- payloads that do escape -----

  const EMPTY := Fs(map[], map[], 3, [])
  const TRUNCATE := OpenOp("p", 0x242, None)

  /** One byte is written, then the path is clobbered under the dirty handle, then the
      handle is closed. */
  function LossOps(clobber: Op): seq<Op> {
    [OpenOp("p", 0x42, None), WriteOp(3, [1]), clobber, CloseOp(3)]
  }

  function LossRun(clobber: Op): seq<Fs> {
    var s1 := Step(EMPTY, OpenOp("p", 0x42, None));
    var s2 := Step(s1, WriteOp(3, [1]));
    var s3 := Step(s2, clobber);
    [EMPTY, s1, s2, s3, Step(s3, CloseOp(3))]
  }

  const WRITTEN := Fs(map["p" := [1]], map[3 := Handle("p", [], 1, true, false, true)], 4, [])

  lemma WrittenOnce(clobber: Op)
    ensures IsRun(LossRun(clobber), LossOps(clobber))
    ensures LossRun(clobber)[2] == WRITTEN && Writes(LossRun(clobber)[1], WriteOp(3, [1]), "p")
  {
    var s1 := Step(EMPTY, OpenOp("p", 0x42, None));
    assert s1 == Fs(map["p" := []], map[3 := Handle("p", [], 0, true, false, false)], 4, []);
    assert Overwrite([], 0, [1]) == [1];
    assert LossRun(clobber)[2] == Write(s1, 3, [1]).0;
  }

  lemma WrittenIsDirty()
    ensures DirtyOpen(WRITTEN, "p") && Stores(WRITTEN, "p", [1])
  {
    assert 3 in WRITTEN.handles;
  }

  /** What closing the dirty handle will report. */
  ghost predicate WillReport(v: Fs, content: Data) {
    && 3 in v.handles && v.handles[3] == WRITTEN.handles[3] && v.log == []
    && content == if "p" in v.store then v.store["p"] else []
  }

  lemma Reported(v: Fs, content: Data)
    requires WillReport(v, content)
    ensures Step(v, CloseOp(3)).log == [Observation("p", content)]
  {
  }

  lemma Replaced(clobber: Op)
    requires clobber == TRUNCATE || clobber == UnlinkOp("p") || clobber == AddFileOp("p", [2])
    ensures Clobbers(WRITTEN, clobber, "p")
    ensures WillReport(Step(WRITTEN, clobber), if clobber.AddFileOp? then [2] else [])
  {
    var v := WRITTEN;
    if clobber == TRUNCATE {
      assert WantsWrite(0x242) && HasFlag(0x242, TRUNC);
      assert Open(v, "p", 0x242, None).0.store["p"] == [];
    }
  }

  /** The payload [1] is lost although a dirty handle is open throughout: the only report
      is of what replaced it. */
  lemma PayloadsEscape(clobber: Op)
    requires clobber == TRUNCATE || clobber == UnlinkOp("p") || clobber == AddFileOp("p", [2])
    ensures IsRun(LossRun(clobber), LossOps(clobber)) && LossRun(clobber)[0] == EMPTY
    ensures Writes(LossRun(clobber)[1], LossOps(clobber)[1], "p") && DirtyOpen(LossRun(clobber)[2], "p")
    ensures Clobbers(LossRun(clobber)[2], clobber, "p") && Stores(LossRun(clobber)[2], "p", [1])
    ensures LossRun(clobber)[4].log == [Observation("p", if clobber.AddFileOp? then [2] else [])]
    ensures !Shown(LossRun(clobber)[4].log, "p", [1])
  {
    hide Step, DirtyOpen, Clobbers, Writes, WillReport, Stores, IsRun;
    WrittenOnce(clobber);
    WrittenIsDirty();
    Replaced(clobber);
    Reported(Step(WRITTEN, clobber), if clobber.AddFileOp? then [2] else []);
  }
}

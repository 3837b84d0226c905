// What reading and writing do to the bytes of a file: byte by byte, there and back, and
// over whole sequences of writes.

module VfsData {
  import opened Common
  import opened VfsModel
  import opened VfsObserver
  import opened VfsLines

  /** What a path holds; nothing if it does not exist. */
  function Content(v: Fs, path: string): Data { if path in v.store then v.store[path] else [] }

  ghost predicate OnlyPath(v: Fs, v': Fs, path: string) {
    forall p :: p != path ==> (p in v'.store <==> p in v.store) && (p in v.store ==> v'.store[p] == v.store[p])
  }

  ghost predicate OnlyFd(v: Fs, v': Fs, fd: int) {
    forall f :: f != fd ==> (f in v'.handles <==> f in v.handles) && (f in v.handles ==> v'.handles[f] == v.handles[f])
  }

  // ----- opening -----

  /** For writing, with any of the flag bits 1, 2 and 0x40: the path exists afterwards,
      empty if it did not before or the bit 0x200 is set, otherwise as it was. The handle
      starts at the end with the bit 0x400 and at the beginning without. */
  lemma OpenForWriting(v: Fs, path: string, flags: nat, provided: Option<Data>)
    requires flags % 2 == 1 || flags / 2 % 2 == 1 || flags / 0x40 % 2 == 1
    ensures var (v', fd) := Open(v, path, flags, provided);
      var content := if path in v.store && flags / 0x200 % 2 == 0 then v.store[path] else [];
      && fd == v.nextFd && v'.nextFd == fd + 1 && fd in v'.handles && v'.log == v.log
      && path in v'.store && v'.store[path] == content && OnlyPath(v, v', path) && OnlyFd(v, v', fd)
      && v'.handles[fd] == Handle(path, [], if flags / 0x400 % 2 == 1 then |content| else 0, true, false, false)
  {
  }

  /** For reading: a stored path from its beginning, or what the provider offers, or 0. */
  lemma OpenForReading(v: Fs, path: string, flags: nat, provided: Option<Data>)
    requires flags % 2 == 0 && flags / 2 % 2 == 0 && flags / 0x40 % 2 == 0
    ensures var (v', fd) := Open(v, path, flags, provided);
      && v'.store == v.store && v'.log == v.log
      && (if path in v.store || provided.Some?
          then && fd == v.nextFd && v'.nextFd == fd + 1 && fd in v'.handles && OnlyFd(v, v', fd)
               && v'.handles[fd].pos == 0 && !v'.handles[fd].writable
               && DataOf(v', v'.handles[fd]) == (if path in v.store then v.store[path] else provided.value)
          else fd == 0 && v' == v)
  {
  }

  /** The data a handle reads: a snapshot for provided files, otherwise what is stored now. */
  lemma HandleReads(v: Fs, h: Handle)
    ensures DataOf(v, h) == if h.synthetic then h.snapshot else Content(v, h.path)
  {
  }

  // ----- writing -----

  /** A write, byte by byte: the bytes given at the position, zeros between the old end and
      the position, all others as they were. */
  lemma WriteBytes(v: Fs, fd: int, data: Data)
    requires fd in v.handles && v.handles[fd].writable
    ensures var h, (v', n) := v.handles[fd], Write(v, fd, data);
      var old_, now := Content(v, h.path), Content(v', h.path);
      && n == |data| && h.path in v'.store && v'.log == v.log && v'.nextFd == v.nextFd
      && |now| == (if h.pos + |data| > |old_| then h.pos + |data| else |old_|)
      && (forall i :: 0 <= i < |now| ==>
            now[i] == if h.pos <= i < h.pos + |data| then data[i - h.pos] else if i < |old_| then old_[i] else 0)
      && OnlyPath(v, v', h.path) && OnlyFd(v, v', fd)
      && fd in v'.handles && v'.handles[fd] == h.(pos := h.pos + |data|, dirty := true)
  {
  }

  /** A write through a descriptor that is not open for writing does nothing. */
  lemma WriteRefused(v: Fs, fd: int, data: Data)
    requires fd !in v.handles || !v.handles[fd].writable
    ensures Write(v, fd, data) == (v, 0)
  {
  }

  // ----- seeking and reading -----

  lemma SeekMoves(v: Fs, fd: int, pos: nat)
    requires fd in v.handles
    ensures var size := |DataOf(v, v.handles[fd])|;
      Seek(v, fd, pos) == v.(handles := v.handles[fd := v.handles[fd].(pos := if pos <= size then pos else size)])
  {
  }

  /** A read gives the bytes at the position, n of them or as many as there are, and moves
      behind them; nothing else changes. */
  lemma ReadBytes(v: Fs, fd: int, n: nat)
    requires fd in v.handles && v.handles[fd].pos <= |DataOf(v, v.handles[fd])|
    ensures var h, src := v.handles[fd], DataOf(v, v.handles[fd]);
      var k := if h.pos + n <= |src| then n else |src| - h.pos;
      Read(v, fd, n) == (v.(handles := v.handles[fd := h.(pos := h.pos + k)]), Ok(src[h.pos..h.pos + k]))
  {
  }

  /** What was written is read back, from where it was written. */
  lemma ReadBackWrite(v: Fs, fd: int, data: Data)
    requires fd in v.handles && v.handles[fd].writable && !v.handles[fd].synthetic
    ensures var v1 := Write(v, fd, data).0;
      Read(Seek(v1, fd, v.handles[fd].pos), fd, |data|).1 == Ok(data)
  {
    hide Write, Seek, Read, DataOf;
    var h, v1 := v.handles[fd], Write(v, fd, data).0;
    WriteBytes(v, fd, data);
    HandleReads(v1, v1.handles[fd]);
    SeekMoves(v1, fd, h.pos);
    var v2 := Seek(v1, fd, h.pos);
    HandleReads(v2, v2.handles[fd]);
    ReadBytes(v2, fd, |data|);
    var now := Content(v1, h.path);
    assert now[h.pos..h.pos + |data|] == data;
  }

  // ----- duplicates -----

  /** A duplicate reads and writes the same file from the same position, and then moves on
      its own. */
  lemma DupCopies(v: Fs, fd: int)
    ensures var (v', new_) := Dup(v, fd);
      if fd in v.handles
      then new_ == v.nextFd && v' == v.(handles := v.handles[new_ := v.handles[fd]], nextFd := new_ + 1)
      else new_ == 0 && v' == v
  {
  }

  /** dup2 closes what was at the target and puts the copy there; -1 without an original. */
  lemma Dup2Copies(v: Fs, fd: int, target: int)
    requires fd in v.handles && fd != target
    ensures var (v', r) := Dup2(v, fd, target);
      && r == target && target in v'.handles && v'.handles[target] == v.handles[fd] && OnlyFd(v, v', target)
      && v'.nextFd > target && v'.nextFd >= v.nextFd
      && v'.log == Close(v, target).log && v'.store == Close(v, target).store
  {
  }

  lemma Dup2Itself(v: Fs, fd: int, target: int)
    ensures fd !in v.handles ==> Dup2(v, fd, target) == (v, -1)
    ensures fd in v.handles ==> Dup2(v, fd, fd) == (v, fd)
  {
  }

  // ----- closing -----

  /** A close drops the handle; a dirty one reports the content of its path at that moment. */
  lemma CloseTells(v: Fs, fd: int)
    requires fd in v.handles
    ensures var h, v' := v.handles[fd], Close(v, fd);
      && fd !in v'.handles && OnlyFd(v, v', fd) && v'.nextFd == v.nextFd
      && v'.log == v.log + (if h.writable && h.dirty then [Observation(h.path, Content(v, h.path))] else [])
      && forall p :: Content(v', p) == Content(v, p)
  {
  }

  // ----- sequences of writes -----

  /** The pieces written one after the other through one descriptor. */
  function WriteAll(v: Fs, fd: int, pieces: seq<Data>): Fs
    decreases |pieces|
  {
    if pieces == [] then v else WriteAll(Write(v, fd, pieces[0]).0, fd, pieces[1..])
  }

  lemma WriteAtEnd(v: Fs, fd: int, data: Data)
    requires fd in v.handles && v.handles[fd].writable && v.handles[fd].pos == |Content(v, v.handles[fd].path)|
    ensures var path, v' := v.handles[fd].path, Write(v, fd, data).0;
      Content(v', path) == Content(v, path) + data
  {
    hide Write;
    WriteBytes(v, fd, data);
  }

  lemma {:induction false} WritesAppend(v: Fs, fd: int, pieces: seq<Data>)
    requires fd in v.handles && v.handles[fd].writable && v.handles[fd].pos == |Content(v, v.handles[fd].path)|
    ensures var h, v' := v.handles[fd], WriteAll(v, fd, pieces);
      && Content(v', h.path) == Content(v, h.path) + Concat(pieces)
      && OnlyPath(v, v', h.path) && OnlyFd(v, v', fd) && v'.log == v.log && v'.nextFd == v.nextFd
      && fd in v'.handles && v'.handles[fd].path == h.path && v'.handles[fd].writable
      && v'.handles[fd].dirty == (h.dirty || pieces != [])
    decreases |pieces|
  {
    hide Write;
    if pieces != [] {
      WriteBytes(v, fd, pieces[0]);
      WriteAtEnd(v, fd, pieces[0]);
      WritesAppend(Write(v, fd, pieces[0]).0, fd, pieces[1..]);
    }
  }

  /** A file written and captured: open for writing, any writes, close. The path holds what
      it held before (nothing if it is new or truncated) followed by everything written,
      and that is exactly what the observer is told. */
  lemma FileWritten(v: Fs, path: string, flags: nat, pieces: seq<Data>)
    requires flags % 2 == 1 || flags / 2 % 2 == 1 || flags / 0x40 % 2 == 1
    requires flags / 0x400 % 2 == 1 || flags / 0x200 % 2 == 1 || Content(v, path) == []
    requires pieces != []
    ensures var (v1, fd) := Open(v, path, flags, None);
      var v' := Close(WriteAll(v1, fd, pieces), fd);
      var before := if flags / 0x200 % 2 == 1 then [] else Content(v, path);
      && Content(v', path) == before + Concat(pieces)
      && v'.log == v.log + [Observation(path, before + Concat(pieces))]
      && OnlyPath(v, v', path) && fd !in v'.handles
  {
    hide Open, Close, WriteAll, Concat;
    OpenForWriting(v, path, flags, None);
    var (v1, fd) := Open(v, path, flags, None);
    WritesAppend(v1, fd, pieces);
    CloseTells(WriteAll(v1, fd, pieces), fd);
    ClosePaths(WriteAll(v1, fd, pieces), fd);
  }

  lemma ClosePaths(v: Fs, fd: int)
    requires fd in v.handles
    ensures OnlyPath(v, Close(v, fd), v.handles[fd].path)
  {
  }

  /** Read to the end, a path gives what it holds. */
  lemma ReadsAll(v: Fs, path: string, n: nat)
    requires path in v.store && n >= |v.store[path]|
    ensures var (v1, fd) := Open(v, path, 0, None);
      Read(v1, fd, n).1 == Ok(v.store[path])
  {
    hide Open, Read, DataOf;
    OpenForReading(v, path, 0, None);
    var (v1, fd) := Open(v, path, 0, None);
    ReadBytes(v1, fd, n);
    var src := v.store[path];
    assert src[0..|src|] == src;
  }

  // ----- a written file is a real one -----

  ghost predicate WritableIsStored(v: Fs) {
    forall fd :: fd in v.handles && v.handles[fd].writable ==> !v.handles[fd].synthetic
  }

  lemma StepKeepsStored(v: Fs, op: Op)
    requires WritableIsStored(v)
    ensures WritableIsStored(Step(v, op))
  {
    hide LineEnd, Overwrite, HasFlag;
  }

  /** In every run a descriptor open for writing reads the stored file, never a snapshot. */
  lemma {:induction false} WritableIsStoredOverRuns(states: seq<Fs>, ops: seq<Op>, i: nat)
    requires IsRun(states, ops) && WritableIsStored(states[0]) && i < |states|
    ensures WritableIsStored(states[i])
  {
    hide Step, WritableIsStored;
    if i > 0 {
      WritableIsStoredOverRuns(states, ops, i - 1);
      StepKeepsStored(states[i - 1], ops[i - 1]);
    }
  }
}

// The in-memory filesystem: a path store, an fd table over it, and the log of
// what the write observer was shown.

module VfsModel {
  import opened Common

  type Data = seq<byte>

  datatype Handle = Handle(path: string, snapshot: Data, pos: nat, writable: bool, synthetic: bool, dirty: bool)

  datatype Observation = Observation(path: string, content: Data)

  datatype Fs = Fs(store: map<string, Data>, handles: map<int, Handle>, nextFd: int, log: seq<Observation>)

  const WR_ONLY: nat := 0x1
  const RD_WR: nat := 0x2
  const CREAT: nat := 0x40
  const TRUNC: nat := 0x200
  const APPEND: nat := 0x400

  predicate HasFlag(flags: nat, f: nat)
    requires f > 0
  {
    flags / f % 2 == 1
  }

  predicate WantsWrite(flags: nat) {
    HasFlag(flags, WR_ONLY) || HasFlag(flags, RD_WR) || HasFlag(flags, CREAT)
  }

  function DataOf(v: Fs, h: Handle): Data {
    if h.synthetic then h.snapshot else if h.path in v.store then v.store[h.path] else []
  }

  function AddHandle(v: Fs, h: Handle): (r: (Fs, int)) {
    (v.(handles := v.handles[v.nextFd := h], nextFd := v.nextFd + 1), v.nextFd)
  }

  /** `provided` is what the provider offers for a path the store does not hold. */
  function Open(v: Fs, path: string, flags: nat, provided: Option<Data>): (r: (Fs, int)) {
    if WantsWrite(flags) then
      var content := if path !in v.store || HasFlag(flags, TRUNC) then [] else v.store[path];
      var pos := if HasFlag(flags, APPEND) then |content| else 0;
      AddHandle(v.(store := v.store[path := content]), Handle(path, [], pos, true, false, false))
    else if path in v.store then AddHandle(v, Handle(path, [], 0, false, false, false))
    else if provided.Some? then AddHandle(v, Handle("", provided.value, 0, false, true, false))
    else (v, 0)
  }

  function Dup(v: Fs, old_: int): (r: (Fs, int)) {
    if old_ !in v.handles then (v, 0) else AddHandle(v, v.handles[old_])
  }

  /** A dirty writable handle shows its file to the observer as it goes. */
  function Close(v: Fs, fd: int): (r: Fs) {
    if fd !in v.handles then v
    else
      var h := v.handles[fd];
      var v1 := v.(handles := v.handles - {fd});
      if !(h.writable && h.dirty) then v1
      else
        var content := if h.path in v.store then v.store[h.path] else [];
        v1.(store := v.store[h.path := content], log := v.log + [Observation(h.path, content)])
  }

  function Dup2(v: Fs, old_: int, new_: int): (r: (Fs, int)) {
    if old_ !in v.handles then (v, -1)
    else if old_ == new_ then (v, new_)
    else
      var v1 := Close(v, new_);
      var next := if new_ >= v.nextFd then new_ + 1 else v.nextFd;
      (v1.(handles := v1.handles[new_ := v.handles[old_]], nextFd := next), new_)
  }

  function Zeros(n: nat): (d: Data)
    ensures |d| == n
  {
    seq(n, i => 0)
  }

  function Overwrite(dst: Data, pos: nat, data: Data): (d: Data)
    ensures |d| == if pos + |data| > |dst| then pos + |data| else |dst|
    ensures d[pos..pos + |data|] == data
  {
    var ext := if pos + |data| > |dst| then dst + Zeros(pos + |data| - |dst|) else dst;
    ext[..pos] + data + ext[pos + |data|..]
  }

  function Write(v: Fs, fd: int, data: Data): (r: (Fs, nat)) {
    if fd !in v.handles || !v.handles[fd].writable then (v, 0)
    else
      var h := v.handles[fd];
      var dst := if h.path in v.store then v.store[h.path] else [];
      (v.(store := v.store[h.path := Overwrite(dst, h.pos, data)],
          handles := v.handles[fd := h.(pos := h.pos + |data|, dirty := true)]), |data|)
  }

  function MoveTo(v: Fs, fd: int, pos: nat): (r: Fs)
    requires fd in v.handles
  {
    v.(handles := v.handles[fd := v.handles[fd].(pos := pos)])
  }

  function Min(a: nat, b: nat): nat { if a < b then a else b }

  function Seek(v: Fs, fd: int, pos: nat): (r: Fs) {
    if fd !in v.handles then v else MoveTo(v, fd, Min(pos, |DataOf(v, v.handles[fd])|))
  }

  /** Err is std::string::assign's refusal of a start position past the end. */
  function Read(v: Fs, fd: int, n: nat): (r: (Fs, Result<Data>)) {
    if fd !in v.handles then (v, Ok([]))
    else
      var src, pos := DataOf(v, v.handles[fd]), v.handles[fd].pos;
      if pos > |src| then (v, Err)
      else
        var take := Min(n, |src| - pos);
        (MoveTo(v, fd, pos + take), Ok(src[pos..pos + take]))
  }

  /** Where a line read from `pos` of at most `room` bytes ends. */
  function LineEnd(src: Data, pos: nat, room: nat): (e: nat)
    requires pos <= |src|
    ensures pos <= e <= |src| && e <= pos + room
    decreases room
  {
    if pos == |src| || room == 0 then pos
    else if src[pos] == 0x0a then pos + 1
    else LineEnd(src, pos + 1, room - 1)
  }

  /** None is the end of the file (or an fd that is not open). */
  function Gets(v: Fs, fd: int, max: nat): (r: (Fs, Option<Data>)) {
    if fd !in v.handles || max == 0 then (v, None)
    else
      var src, pos := DataOf(v, v.handles[fd]), v.handles[fd].pos;
      if pos >= |src| then (v, None)
      else
        var e := LineEnd(src, pos, max - 1);
        (MoveTo(v, fd, e), Some(src[pos..e]))
  }

  function AddFile(v: Fs, path: string, content: Data): (r: Fs) { v.(store := v.store[path := content]) }

  function Unlink(v: Fs, path: string): (r: Fs) { v.(store := v.store - {path}) }

  datatype Op =
    | OpenOp(path: string, flags: nat, provided: Option<Data>)
    | DupOp(fd: int)
    | Dup2Op(fd: int, target: int)
    | ReadOp(fd: int, n: nat)
    | WriteOp(fd: int, data: Data)
    | GetsOp(fd: int, max: nat)
    | SeekOp(fd: int, pos: nat)
    | CloseOp(fd: int)
    | AddFileOp(path: string, content: Data)
    | UnlinkOp(path: string)

  function Step(v: Fs, op: Op): (r: Fs) {
    match op
    case OpenOp(path, flags, provided) => Open(v, path, flags, provided).0
    case DupOp(fd) => Dup(v, fd).0
    case Dup2Op(fd, target) => Dup2(v, fd, target).0
    case ReadOp(fd, n) => Read(v, fd, n).0
    case WriteOp(fd, data) => Write(v, fd, data).0
    case GetsOp(fd, max) => Gets(v, fd, max).0
    case SeekOp(fd, pos) => Seek(v, fd, pos)
    case CloseOp(fd) => Close(v, fd)
    case AddFileOp(path, content) => AddFile(v, path, content)
    case UnlinkOp(path) => Unlink(v, path)
  }
}

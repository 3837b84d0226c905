// The filesystem object: its fields and loops, each operation proved against
// VfsModel, and the client loops that read a file to its end.

module VfsClass {
  import opened Common
  import opened VfsLines
  import VfsDirs
  import M = VfsModel

  lemma MoveTwice(v: M.Fs, fd: int, a: nat, b: nat)
    requires fd in v.handles
    ensures M.MoveTo(M.MoveTo(v, fd, a), fd, b) == M.MoveTo(v, fd, b)
  {
    assert M.MoveTo(M.MoveTo(v, fd, a), fd, b).handles == M.MoveTo(v, fd, b).handles;
  }

  lemma GetsAt(v: M.Fs, fd: int, pos: nat, max: nat)
    requires fd in v.handles && max >= 2 && pos <= |M.DataOf(v, v.handles[fd])|
    ensures var src, here := M.DataOf(v, v.handles[fd]), M.MoveTo(v, fd, pos);
      if pos == |src| then M.Gets(here, fd, max) == (here, None)
      else
        var e := M.LineEnd(src, pos, max - 1);
        pos < e <= |src| && M.Gets(here, fd, max) == (M.MoveTo(v, fd, e), Some(src[pos..e])) &&
        Lines(src, pos, max) == [src[pos..e]] + Lines(src, e, max)
  {
    hide M.LineEnd;
    var src, here := M.DataOf(v, v.handles[fd]), M.MoveTo(v, fd, pos);
    assert M.DataOf(here, here.handles[fd]) == src;
    if pos < |src| {
      LineEndIsLine(src, pos, max - 1);
      MoveTwice(v, fd, pos, M.LineEnd(src, pos, max - 1));
    }
  }

  lemma ReadAt(v: M.Fs, fd: int, pos: nat, n: nat)
    requires fd in v.handles && n > 0 && pos <= |M.DataOf(v, v.handles[fd])|
    ensures var src, here := M.DataOf(v, v.handles[fd]), M.MoveTo(v, fd, pos);
      var e := pos + M.Min(n, |src| - pos);
      e <= |src| && (pos < |src| ==> pos < e) && M.Read(here, fd, n) == (M.MoveTo(v, fd, e), Ok(src[pos..e]))
  {
    var src, here := M.DataOf(v, v.handles[fd]), M.MoveTo(v, fd, pos);
    assert M.DataOf(here, here.handles[fd]) == src;
    MoveTwice(v, fd, pos, pos + M.Min(n, |src| - pos));
  }

  class Vfs {
    var store: map<string, M.Data>
    var dirs: set<string>
    var handles: map<int, M.Handle>
    var nextFd: int
    var log: seq<M.Observation>

    constructor ()
      ensures View() == M.Fs(map[], map[], 3, []) && dirs == {}
    {
      store, dirs, handles, nextFd, log := map[], {}, map[], 3, [];
    }

    ghost function View(): M.Fs
      reads this
    {
      M.Fs(store, handles, nextFd, log)
    }

    method AddHandle(h: M.Handle) returns (fd: int)
      modifies this`handles, this`nextFd
      ensures (View(), fd) == M.AddHandle(old(View()), h)
    {
      fd := nextFd;
      nextFd := nextFd + 1;
      handles := handles[fd := h];
    }

    method Open(path: string, flags: nat, provided: Option<M.Data>) returns (fd: int)
      modifies this`store, this`handles, this`nextFd
      ensures (View(), fd) == M.Open(old(View()), path, flags, provided)
    {
      hide M.HasFlag;
      if M.WantsWrite(flags) {
        if path !in store {
          store := store[path := []];
        } else if M.HasFlag(flags, M.TRUNC) {
          store := store[path := []];
        }
        assert store == old(store)[path := store[path]];
        var pos := if M.HasFlag(flags, M.APPEND) then |store[path]| else 0;
        fd := AddHandle(M.Handle(path, [], pos, true, false, false));
        return;
      }
      if path in store {
        fd := AddHandle(M.Handle(path, [], 0, false, false, false));
        return;
      }
      if provided.Some? {
        fd := AddHandle(M.Handle("", provided.value, 0, false, true, false));
        return;
      }
      fd := 0;
    }

    method Dup(oldFd: int) returns (fd: int)
      modifies this`handles, this`nextFd
      ensures (View(), fd) == M.Dup(old(View()), oldFd)
    {
      if oldFd !in handles {
        return 0;
      }
      fd := AddHandle(handles[oldFd]);
    }

    method Close(fd: int)
      modifies this`store, this`handles, this`log
      ensures View() == M.Close(old(View()), fd)
    {
      if fd !in handles {
        return;
      }
      var h := handles[fd];
      if h.writable && h.dirty {
        if h.path !in store {
          store := store[h.path := []];
        }
        assert store == old(store)[h.path := store[h.path]];
        log := log + [M.Observation(h.path, store[h.path])];
      }
      handles := handles - {fd};
    }

    method Dup2(oldFd: int, newFd: int) returns (fd: int)
      modifies this
      ensures (View(), fd) == M.Dup2(old(View()), oldFd, newFd) && dirs == old(dirs)
    {
      if oldFd !in handles {
        return -1;
      }
      if oldFd == newFd {
        return newFd;
      }
      Close(newFd);
      handles := handles[newFd := handles[oldFd]];
      if newFd >= nextFd {
        nextFd := newFd + 1;
      }
      fd := newFd;
    }

    method Write(fd: int, data: M.Data) returns (n: nat)
      modifies this`store, this`handles
      ensures (View(), n) == M.Write(old(View()), fd, data)
    {
      hide M.Overwrite;
      if fd !in handles || !handles[fd].writable {
        return 0;
      }
      var h := handles[fd];
      var dst := if h.path in store then store[h.path] else [];
      store := store[h.path := M.Overwrite(dst, h.pos, data)];
      handles := handles[fd := h.(pos := h.pos + |data|, dirty := true)];
      n := |data|;
    }

    function DataOf(h: M.Handle): M.Data
      reads this
    {
      if h.synthetic then h.snapshot else if h.path in store then store[h.path] else []
    }

    method Read(fd: int, n: nat) returns (out: Result<M.Data>)
      modifies this`handles
      ensures (View(), out) == M.Read(old(View()), fd, n)
    {
      if fd !in handles {
        return Ok([]);
      }
      var h := handles[fd];
      var src := DataOf(h);
      if h.pos > |src| {
        return Err;
      }
      var take := if n < |src| - h.pos then n else |src| - h.pos;
      out := Ok(src[h.pos..h.pos + take]);
      handles := handles[fd := h.(pos := h.pos + take)];
    }

    method Gets(fd: int, max: nat) returns (line: Option<M.Data>)
      modifies this`handles
      ensures (View(), line) == M.Gets(old(View()), fd, max)
    {
      if fd !in handles || max == 0 {
        return None;
      }
      var h := handles[fd];
      var src := DataOf(h);
      if h.pos >= |src| {
        return None;
      }
      var out: M.Data := [];
      var pos := h.pos;
      ghost var end := M.LineEnd(src, h.pos, max - 1);
      var more := true;
      while more && pos < |src| && |out| + 1 < max
        invariant h.pos <= pos <= |src| && out == src[h.pos..pos] && |out| < max
        invariant if more then M.LineEnd(src, pos, max - 1 - |out|) == end else pos == end
        decreases |src| - pos
      {
        var c := src[pos];
        pos := pos + 1;
        assert src[h.pos..pos] == src[h.pos..pos - 1] + [c];
        out := out + [c];
        if c == NEWLINE {
          more := false;
        }
      }
      handles := handles[fd := h.(pos := pos)];
      line := Some(out);
    }

    method Seek(fd: int, pos: nat)
      modifies this`handles
      ensures View() == M.Seek(old(View()), fd, pos)
    {
      if fd !in handles {
        return;
      }
      var h := handles[fd];
      handles := handles[fd := h.(pos := M.Min(pos, |DataOf(h)|))];
    }

    method IsDir(path: string) returns (r: bool)
      ensures r <==> VfsDirs.Trim(path) in dirs || exists k :: k in store && VfsDirs.Trim(path) + "/" <= k
    {
      r := VfsDirs.IsDir(store.Keys, dirs, path);
    }

    // ----- client loops -----

    /** fgets until it fails: terminates for every max >= 2 and returns the lines. */
    method ReadLines(fd: int, max: nat) returns (pieces: seq<M.Data>)
      requires fd in handles && max >= 2 && handles[fd].pos <= |M.DataOf(View(), handles[fd])|
      modifies this`handles
      ensures var src := M.DataOf(old(View()), old(handles)[fd]);
        pieces == Lines(src, old(handles)[fd].pos, max) && Concat(pieces) == src[old(handles)[fd].pos..] &&
        View() == M.MoveTo(old(View()), fd, |src|)
    {
      hide M.LineEnd, M.Gets, M.MoveTo, Lines, M.DataOf;
      ghost var v0, src := View(), M.DataOf(View(), handles[fd]);
      ghost var start := handles[fd].pos;
      ghost var pos := start;
      pieces := [];
      LinesPartition(src, start, max);
      MoveNowhere(v0, fd);
      assert [] + Lines(src, start, max) == Lines(src, start, max);
      while true
        invariant pos <= |src| && View() == M.MoveTo(v0, fd, pos)
        invariant Lines(src, start, max) == pieces + Lines(src, pos, max)
        decreases |src| - pos
      {
        GetsAt(v0, fd, pos, max);
        var line := Gets(fd, max);
        if line.None? {
          break;
        }
        pos := M.LineEnd(src, pos, max - 1);
        pieces := pieces + [line.value];
      }
      NoLines(src, max);
    }

    static lemma MoveNowhere(v: M.Fs, fd: int)
      requires fd in v.handles
      ensures M.MoveTo(v, fd, v.handles[fd].pos) == v
    {
    }

    static lemma NoLines(src: M.Data, max: nat)
      requires max >= 2
      ensures Lines(src, |src|, max) == []
    {
    }

    /** read until it returns nothing, with any positive chunk sizes. */
    method ReadChunks(fd: int, size: nat -> nat) returns (pieces: seq<M.Data>)
      requires fd in handles && handles[fd].pos <= |M.DataOf(View(), handles[fd])|
      requires forall i: nat :: size(i) > 0
      modifies this`handles
      ensures var src := M.DataOf(old(View()), old(handles)[fd]);
        Concat(pieces) == src[old(handles)[fd].pos..] && View() == M.MoveTo(old(View()), fd, |src|)
    {
      hide M.Read, M.MoveTo, M.DataOf, Concat;
      ghost var v0, src := View(), M.DataOf(View(), handles[fd]);
      ghost var start := handles[fd].pos;
      ghost var pos := start;
      pieces := [];
      MoveNowhere(v0, fd);
      assert Concat([]) == src[start..start] by { ConcatNone(); }
      while true
        invariant start <= pos <= |src| && View() == M.MoveTo(v0, fd, pos)
        invariant Concat(pieces) == src[start..pos]
        decreases |src| - pos
      {
        ReadAt(v0, fd, pos, size(|pieces|));
        var got := Read(fd, size(|pieces|));
        if got.value == [] {
          break;
        }
        ConcatAppend(pieces, got.value);
        assert src[start..pos + |got.value|] == src[start..pos] + src[pos..pos + |got.value|];
        pos := pos + |got.value|;
        pieces := pieces + [got.value];
      }
      assert src[start..pos] == src[start..];
    }

    static lemma ConcatNone()
      ensures Concat([]) == []
    {
    }
  }
}

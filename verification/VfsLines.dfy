// Reading a file to its end, by lines or by chunks, yields exactly its content.

module VfsLines {
  import opened Common
  import opened VfsModel

  const NEWLINE: byte := 0x0a

  function Concat(pieces: seq<Data>): Data {
    if pieces == [] then [] else pieces[0] + Concat(pieces[1..])
  }

  lemma {:induction false} ConcatAppend(pieces: seq<Data>, last: Data)
    ensures Concat(pieces + [last]) == Concat(pieces) + last
  {
    if pieces == [] {
      assert pieces + [last] == [last] && [last][1..] == [];
    } else {
      ConcatAppend(pieces[1..], last);
      assert (pieces + [last])[1..] == pieces[1..] + [last];
    }
  }

  /** What a line reader with room for `room` bytes must return at pos: at least one
      byte, no newline but the last, and it stops early only at a newline or the end. */
  ghost predicate IsLine(src: Data, pos: nat, e: nat, room: nat) {
    && pos < e <= |src| && e <= pos + room
    && (forall i :: pos <= i < e - 1 ==> src[i] != NEWLINE)
    && (src[e - 1] == NEWLINE || e == pos + room || e == |src|)
  }

  lemma {:induction false} LineEndIsLine(src: Data, pos: nat, room: nat)
    requires pos < |src| && room > 0
    ensures IsLine(src, pos, LineEnd(src, pos, room), room)
    decreases room
  {
    if src[pos] != NEWLINE && pos + 1 < |src| && room > 1 {
      LineEndIsLine(src, pos + 1, room - 1);
    } else if src[pos] != NEWLINE {
      assert LineEnd(src, pos, room) == LineEnd(src, pos + 1, room - 1) == pos + 1;
    }
  }

  /** The predicate leaves no choice, so it is a full specification of gets. */
  lemma LineIsUnique(src: Data, pos: nat, e: nat, e': nat, room: nat)
    requires IsLine(src, pos, e, room) && IsLine(src, pos, e', room)
    ensures e == e'
  {
  }

  /** The pieces gets returns, called until it reports the end. */
  function Lines(src: Data, pos: nat, max: nat): (pieces: seq<Data>)
    requires pos <= |src| && max >= 2
    decreases |src| - pos
  {
    if pos == |src| then []
    else
      LineEndIsLine(src, pos, max - 1);
      var e := LineEnd(src, pos, max - 1);
      [src[pos..e]] + Lines(src, e, max)
  }

  ghost predicate GoodPiece(p: Data, max: nat) {
    && 0 < |p| <= max - 1
    && (forall i :: 0 <= i < |p| - 1 ==> p[i] != NEWLINE)
  }

  /** Line reading partitions the rest of the file: the pieces concatenate to it, are
      non-empty, fit the buffer, and have a newline only at their end. */
  lemma {:induction false} LinesPartition(src: Data, pos: nat, max: nat)
    requires pos <= |src| && max >= 2
    ensures Concat(Lines(src, pos, max)) == src[pos..]
    ensures forall p :: p in Lines(src, pos, max) ==> GoodPiece(p, max)
    decreases |src| - pos
  {
    if pos < |src| {
      LineEndIsLine(src, pos, max - 1);
      var e := LineEnd(src, pos, max - 1);
      hide LineEnd;
      LinesPartition(src, e, max);
      var first := src[pos..e];
      forall i | 0 <= i < |first| - 1 ensures first[i] != NEWLINE { assert first[i] == src[pos + i]; }
      assert GoodPiece(first, max);
      assert src[pos..] == first + src[e..];
      assert ([first] + Lines(src, e, max))[1..] == Lines(src, e, max);
    }
  }

  /** With room for the terminator only, gets succeeds without moving: progress needs
      max >= 2, and that is enough. */
  lemma ProgressIff(v: Fs, fd: int, max: nat)
    requires fd in v.handles && Gets(v, fd, max).1.Some?
    ensures v.handles[fd].pos < Gets(v, fd, max).0.handles[fd].pos <==> max >= 2
  {
    var src, pos := DataOf(v, v.handles[fd]), v.handles[fd].pos;
    if max >= 2 { LineEndIsLine(src, pos, max - 1); }
  }
}

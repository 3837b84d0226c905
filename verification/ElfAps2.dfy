// Android packed relocations (APS2): a SLEB128 stream of relocation groups.
// Decoding any truthful grouping of a relocation list gives back that list, and
// applying the stream has the same effect on memory as the flat RELA table.

module ElfAps2 {
  import opened Common
  import opened Sleb128
  import opened ElfReloc

  const MAGIC: seq<byte> := [0x41, 0x50, 0x53, 0x32]

  // Group flags.
  predicate ByInfo(f: u64) { f % 2 == 1 }
  predicate ByDelta(f: u64) { f / 2 % 2 == 1 }
  predicate ByAddend(f: u64) { f / 4 % 2 == 1 }
  predicate HasAddend(f: u64) { f / 8 % 2 == 1 }

  // ----- the decoder -----

  function ReadIf(wanted: bool, buf: seq<byte>, p: nat, otherwise: u64): (r: Option<Cursor>)
    ensures r.Some? && wanted ==> p < r.value.pos <= |buf|
    ensures r.Some? && !wanted ==> r.value.pos == p
  {
    if wanted then Read(buf, p) else Some(Cursor(otherwise, p))
  }

  /** What a stretch of the stream decodes to, and where it leaves the decoder. */
  datatype Decoded = Decoded(relocs: seq<Rela>, pos: nat, offset: u64, addend: u64)

  function ReadOne(buf: seq<byte>, p: nat, f: u64, delta: u64, info: u64, off: u64, addend: u64): (r: Option<Decoded>)
    ensures r.Some? ==> p <= r.value.pos && |r.value.relocs| == 1
  {
    var d := ReadIf(!ByDelta(f), buf, p, delta);
    if d.None? then None else
    var i := ReadIf(!ByInfo(f), buf, d.value.pos, info);
    if i.None? then None else
    var a := ReadIf(HasAddend(f) && !ByAddend(f), buf, i.value.pos, 0);
    if a.None? then None else
    var off' := (off + d.value.value) % TWO64;
    var addend' := (addend + a.value.value) % TWO64;
    Some(Decoded([Rela(off', i.value.value, if HasAddend(f) then addend' else 0)], a.value.pos, off', addend'))
  }

  function ReadRelocs(buf: seq<byte>, p: nat, n: nat, f: u64, delta: u64, info: u64, off: u64,
                      addend: u64): (r: Option<Decoded>)
    ensures r.Some? ==> p <= r.value.pos
    decreases n
  {
    if n == 0 then Some(Decoded([], p, off, addend))
    else
      var one := ReadOne(buf, p, f, delta, info, off, addend);
      if one.None? then None else
      var rest := ReadRelocs(buf, one.value.pos, n - 1, f, delta, info, one.value.offset, one.value.addend);
      if rest.None? then None else
      Some(rest.value.(relocs := one.value.relocs + rest.value.relocs))
  }

  datatype Header = Header(size: int, flags: u64, delta: u64, info: u64, addend: u64, pos: nat)

  function ReadHeader(buf: seq<byte>, p: nat, addend: u64): (r: Option<Header>)
    ensures r.Some? ==> p < r.value.pos
  {
    var size := Read(buf, p);
    if size.None? then None else
    var flags := Read(buf, size.value.pos);
    if flags.None? then None else
    var f := flags.value.value;
    var delta := ReadIf(ByDelta(f), buf, flags.value.pos, 0);
    if delta.None? then None else
    var info := ReadIf(ByInfo(f), buf, delta.value.pos, 0);
    if info.None? then None else
    var add := ReadIf(ByAddend(f) && HasAddend(f), buf, info.value.pos, 0);
    if add.None? then None else
    Some(Header(Signed(size.value.value), f, delta.value.value, info.value.value,
                (addend + add.value.value) % TWO64, add.value.pos))
  }

  function Count(size: int): nat { if size < 0 then 0 else size }

  /** The group loop: `left` is reloc_count - done. */
  function ReadGroups(buf: seq<byte>, p: nat, left: int, off: u64, addend: u64): (r: Option<seq<Rela>>)
    decreases |buf| - p
  {
    if left <= 0 || p >= |buf| then Some([])
    else
      var h := ReadHeader(buf, p, addend);
      if h.None? then None else
      var h := h.value;
      var g := ReadRelocs(buf, h.pos, Count(h.size), h.flags, h.delta, h.info, off, h.addend);
      if g.None? then None else
      var g := g.value;
      var rest := ReadGroups(buf, g.pos, left - h.size, g.offset, if HasAddend(h.flags) then g.addend else 0);
      if rest.None? then None else Some(g.relocs + rest.value)
  }

  /** The relocations a packed stream stands for. A bad magic stands for none; None
      is a stream on which the C++ reads out of bounds. */
  function Unpack(buf: seq<byte>): (r: Option<seq<Rela>>) {
    if |buf| < 4 || buf[..4] != MAGIC then Some([])
    else
      var count := Read(buf, 4);
      if count.None? then None else
      var off := Read(buf, count.value.pos);
      if off.None? then None else
      ReadGroups(buf, off.value.pos, Signed(count.value.value), off.value.value, 0)
  }

  // ----- the encoder -----

  datatype Group = Group(byInfo: bool, byDelta: bool, byAddend: bool, hasAddend: bool, relocs: seq<Rela>)

  function FlagsOf(g: Group): (f: u64)
    ensures ByInfo(f) == g.byInfo && ByDelta(f) == g.byDelta && ByAddend(f) == g.byAddend && HasAddend(f) == g.hasAddend
    ensures f < 16
  {
    (if g.byInfo then 1 else 0) + (if g.byDelta then 2 else 0) +
    (if g.byAddend then 4 else 0) + (if g.hasAddend then 8 else 0)
  }

  function Diff(to: u64, from: u64): (d: u64) { (to - from) % TWO64 }

  function Num(u: u64): seq<byte> { Write(Signed(u)) }

  function PackOne(g: Group, r: Rela, off: u64, addend: u64): seq<byte> {
    (if g.byDelta then [] else Num(Diff(r.offset, off))) +
    (if g.byInfo then [] else Num(r.info)) +
    (if g.hasAddend && !g.byAddend then Num(Diff(r.addend, addend)) else [])
  }

  function PackRelocs(g: Group, rs: seq<Rela>, off: u64, addend: u64): seq<byte> {
    if rs == [] then []
    else PackOne(g, rs[0], off, addend) + PackRelocs(g, rs[1..], rs[0].offset, AddendAfter(g, rs[0], addend))
  }

  function AddendAfter(g: Group, r: Rela, addend: u64): u64 { if g.hasAddend then r.addend else addend }

  // What is shared by the group; zero for an empty group.
  function SharedDelta(g: Group, off: u64): u64 { if g.relocs == [] then 0 else Diff(g.relocs[0].offset, off) }
  function SharedInfo(g: Group): u64 { if g.relocs == [] then 0 else g.relocs[0].info }
  function SharedAddend(g: Group, addend: u64): u64 { if g.relocs == [] then addend else g.relocs[0].addend }

  /** The addend the reader holds when it starts on the group's relocations. */
  function StartAddend(g: Group, addend: u64): u64 {
    if g.byAddend && g.hasAddend then SharedAddend(g, addend) else addend
  }

  function PackHeader(g: Group, off: u64, addend: u64): seq<byte> {
    Write(|g.relocs|) + Num(FlagsOf(g)) +
    (if g.byDelta then Num(SharedDelta(g, off)) else []) +
    (if g.byInfo then Num(SharedInfo(g)) else []) +
    (if g.byAddend && g.hasAddend then Num(Diff(SharedAddend(g, addend), addend)) else [])
  }

  function OffsetEnd(rs: seq<Rela>, off: u64): u64 { if rs == [] then off else rs[|rs| - 1].offset }

  function AddendEnd(g: Group, rs: seq<Rela>, addend: u64): u64 {
    if rs == [] || !g.hasAddend then addend else rs[|rs| - 1].addend
  }

  /** The addend carried into the next group. */
  function Carry(g: Group, addend: u64): u64 {
    if g.hasAddend then AddendEnd(g, g.relocs, StartAddend(g, addend)) else 0
  }

  function PackGroups(gs: seq<Group>, off: u64, addend: u64): seq<byte> {
    if gs == [] then []
    else PackHeader(gs[0], off, addend) + PackRelocs(gs[0], gs[0].relocs, off, StartAddend(gs[0], addend)) +
         PackGroups(gs[1..], OffsetEnd(gs[0].relocs, off), Carry(gs[0], addend))
  }

  function Flatten(gs: seq<Group>): seq<Rela> {
    if gs == [] then [] else gs[0].relocs + Flatten(gs[1..])
  }

  function Pack(gs: seq<Group>, start: u64): seq<byte> {
    MAGIC + Write(|Flatten(gs)|) + Num(start) + PackGroups(gs, start, 0)
  }

  // ----- truthful groupings -----

  predicate DeltasAre(rs: seq<Rela>, off: u64, d: u64) {
    rs == [] || (Diff(rs[0].offset, off) == d && DeltasAre(rs[1..], rs[0].offset, d))
  }

  /** What a group claims to share is shared. */
  predicate Truthful(g: Group, off: u64) {
    && (g.byDelta ==> DeltasAre(g.relocs, off, SharedDelta(g, off)))
    && (g.byInfo ==> forall r :: r in g.relocs ==> r.info == SharedInfo(g))
    && (g.byAddend && g.hasAddend ==> forall r :: r in g.relocs ==> r.addend == g.relocs[0].addend)
    && (!g.hasAddend ==> forall r :: r in g.relocs ==> r.addend == 0)
  }

  predicate AllTruthful(gs: seq<Group>, off: u64) {
    gs == [] || (Truthful(gs[0], off) && AllTruthful(gs[1..], OffsetEnd(gs[0].relocs, off)))
  }
}

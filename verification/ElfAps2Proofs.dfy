// Unpack undoes Pack for every truthful grouping, and the interleaved decoder
// has the effect of the flat table.

module ElfAps2Proofs {
  import opened Common
  import opened LittleEndian
  import opened Sleb128
  import opened ElfReloc
  import opened ElfAps2

  // ----- pieces of a stream -----

  lemma ReadNum(buf: seq<byte>, p: nat, u: u64)
    requires At(buf, p, Num(u))
    ensures Read(buf, p) == Some(Cursor(u, p + |Num(u)|))
  {
    hide Write;
    ReadWrite(buf, p, Signed(u));
  }

  function NumIf(wanted: bool, u: u64): seq<byte> { if wanted then Num(u) else [] }

  lemma ReadIfNum(wanted: bool, buf: seq<byte>, p: nat, u: u64)
    requires At(buf, p, NumIf(wanted, u))
    ensures ReadIf(wanted, buf, p, u) == Some(Cursor(u, p + |NumIf(wanted, u)|))
  {
    hide Read, Num;
    if wanted { ReadNum(buf, p, u); }
  }

  lemma AddDiff(to: u64, from: u64)
    ensures (from + Diff(to, from)) % TWO64 == to
  {
  }

  // ----- relocations of one group -----

  /** What the group's relocations, from rs on, must agree with. */
  predicate Agrees(g: Group, rs: seq<Rela>, off: u64, delta: u64, info: u64, addend: u64) {
    && (g.byDelta ==> DeltasAre(rs, off, delta))
    && (g.byInfo ==> forall r :: r in rs ==> r.info == info)
    && (g.byAddend && g.hasAddend ==> forall r :: r in rs ==> r.addend == addend)
    && (!g.hasAddend ==> forall r :: r in rs ==> r.addend == 0)
  }

  lemma AgreesTail(g: Group, rs: seq<Rela>, off: u64, delta: u64, info: u64, addend: u64)
    requires rs != [] && Agrees(g, rs, off, delta, info, addend)
    ensures Agrees(g, rs[1..], rs[0].offset, delta, info, AddendAfter(g, rs[0], addend))
  {
  }

  lemma SplitOne(buf: seq<byte>, p: nat, g: Group, r: Rela, off: u64, addend: u64)
    requires At(buf, p, PackOne(g, r, off, addend))
    ensures var ds, is_ := NumIf(!g.byDelta, Diff(r.offset, off)), NumIf(!g.byInfo, r.info);
      var as_ := NumIf(g.hasAddend && !g.byAddend, Diff(r.addend, addend));
      At(buf, p, ds) && At(buf, p + |ds|, is_) && At(buf, p + |ds| + |is_|, as_) &&
      |PackOne(g, r, off, addend)| == |ds| + |is_| + |as_|
  {
    hide Num, Diff, At;
    var ds, is_ := NumIf(!g.byDelta, Diff(r.offset, off)), NumIf(!g.byInfo, r.info);
    var as_ := NumIf(g.hasAddend && !g.byAddend, Diff(r.addend, addend));
    AtSplit(buf, p, ds + is_, as_);
    AtSplit(buf, p, ds, is_);
  }

  lemma ReadPackedOne(buf: seq<byte>, p: nat, g: Group, rs: seq<Rela>, off: u64, delta: u64, info: u64, addend: u64)
    requires rs != [] && Agrees(g, rs, off, delta, info, addend)
    requires At(buf, p, PackOne(g, rs[0], off, addend))
    ensures ReadOne(buf, p, FlagsOf(g), delta, info, off, addend) ==
      Some(Decoded([rs[0]], p + |PackOne(g, rs[0], off, addend)|, rs[0].offset, AddendAfter(g, rs[0], addend)))
  {
    hide Num, NumIf, Read, ReadIf, Diff, FlagsOf, ByInfo, ByDelta, ByAddend, HasAddend, At, PackOne;
    var r := rs[0];
    SplitOne(buf, p, g, r, off, addend);
    var d, a := Diff(r.offset, off), Diff(r.addend, addend);
    var ds, is_ := NumIf(!g.byDelta, d), NumIf(!g.byInfo, r.info);
    ReadIfNum(!g.byDelta, buf, p, d);
    ReadIfNum(!g.byInfo, buf, p + |ds|, r.info);
    ReadIfNum(g.hasAddend && !g.byAddend, buf, p + |ds| + |is_|, a);
    AddDiff(r.offset, off);
    AddDiff(r.addend, addend);
    assert r in rs;
    ReadIfDefault(!g.byDelta, buf, p, d, delta);
    ReadIfDefault(!g.byInfo, buf, p + |ds|, r.info, info);
    var q := p + |ds| + |is_|;
    if g.hasAddend && !g.byAddend {
      ReadIfDefault(true, buf, q, a, 0);
    } else {
      ReadIfNot(buf, q, a);
      ReadIfNot(buf, q, 0);
    }
  }

  lemma ReadIfNot(buf: seq<byte>, p: nat, u: u64)
    ensures ReadIf(false, buf, p, u) == Some(Cursor(u, p))
  {
  }

  lemma ReadIfDefault(wanted: bool, buf: seq<byte>, p: nat, u: u64, u': u64)
    requires wanted || u == u'
    ensures ReadIf(wanted, buf, p, u) == ReadIf(wanted, buf, p, u')
  {
  }

  lemma PackRelocsUnfold(g: Group, rs: seq<Rela>, off: u64, addend: u64)
    ensures PackRelocs(g, rs, off, addend) ==
      if rs == [] then []
      else PackOne(g, rs[0], off, addend) + PackRelocs(g, rs[1..], rs[0].offset, AddendAfter(g, rs[0], addend))
  {
  }

  lemma ReadRelocsNone(buf: seq<byte>, p: nat, f: u64, delta: u64, info: u64, off: u64, addend: u64)
    ensures ReadRelocs(buf, p, 0, f, delta, info, off, addend) == Some(Decoded([], p, off, addend))
  {
  }

  lemma ReadRelocsUnfold(buf: seq<byte>, p: nat, n: nat, f: u64, delta: u64, info: u64, off: u64, addend: u64)
    requires n > 0
    ensures var all := ReadRelocs(buf, p, n, f, delta, info, off, addend);
      var one := ReadOne(buf, p, f, delta, info, off, addend);
      if one.None? then all == None
      else
        var rest := ReadRelocs(buf, one.value.pos, n - 1, f, delta, info, one.value.offset, one.value.addend);
        if rest.None? then all == None
        else all == Some(rest.value.(relocs := one.value.relocs + rest.value.relocs))
  {
    hide ReadOne;
  }

  lemma {:induction false} ReadPackedRelocs(buf: seq<byte>, p: nat, g: Group, rs: seq<Rela>,
                                            off: u64, delta: u64, info: u64, addend: u64)
    requires Agrees(g, rs, off, delta, info, addend)
    requires At(buf, p, PackRelocs(g, rs, off, addend))
    ensures ReadRelocs(buf, p, |rs|, FlagsOf(g), delta, info, off, addend) ==
      Some(Decoded(rs, p + |PackRelocs(g, rs, off, addend)|, OffsetEnd(rs, off), AddendEnd(g, rs, addend)))
    decreases |rs|
  {
    hide Agrees, PackOne, ReadOne, FlagsOf, At, ReadRelocs, PackRelocs;
    PackRelocsUnfold(g, rs, off, addend);
    if rs == [] {
      ReadRelocsNone(buf, p, FlagsOf(g), delta, info, off, addend);
    } else {
      var one := PackOne(g, rs[0], off, addend);
      var addend' := AddendAfter(g, rs[0], addend);
      AtSplit(buf, p, one, PackRelocs(g, rs[1..], rs[0].offset, addend'));
      ReadPackedOne(buf, p, g, rs, off, delta, info, addend);
      AgreesTail(g, rs, off, delta, info, addend);
      ReadPackedRelocs(buf, p + |one|, g, rs[1..], rs[0].offset, delta, info, addend');
      ReadRelocsUnfold(buf, p, |rs|, FlagsOf(g), delta, info, off, addend);
      assert [rs[0]] + rs[1..] == rs;
    }
  }

  // ----- group headers -----

  lemma SplitHeader(buf: seq<byte>, p: nat, g: Group, off: u64, addend: u64)
    requires |g.relocs| < TWO64 / 2 && At(buf, p, PackHeader(g, off, addend))
    ensures var n, f := Num(|g.relocs|), Num(FlagsOf(g));
      var ds, is_ := NumIf(g.byDelta, SharedDelta(g, off)), NumIf(g.byInfo, SharedInfo(g));
      var as_ := NumIf(g.byAddend && g.hasAddend, Diff(SharedAddend(g, addend), addend));
      At(buf, p, n) && At(buf, p + |n|, f) && At(buf, p + |n| + |f|, ds) && At(buf, p + |n| + |f| + |ds|, is_) &&
      At(buf, p + |n| + |f| + |ds| + |is_|, as_) && |PackHeader(g, off, addend)| == |n| + |f| + |ds| + |is_| + |as_|
  {
    hide Num, Diff, At, SharedDelta, SharedInfo, SharedAddend, FlagsOf;
    SizeIsNum(g);
    var n, f := Num(|g.relocs|), Num(FlagsOf(g));
    var ds, is_ := NumIf(g.byDelta, SharedDelta(g, off)), NumIf(g.byInfo, SharedInfo(g));
    var as_ := NumIf(g.byAddend && g.hasAddend, Diff(SharedAddend(g, addend), addend));
    AtSplit(buf, p, n + f + ds + is_, as_);
    AtSplit(buf, p, n + f + ds, is_);
    AtSplit(buf, p, n + f, ds);
    AtSplit(buf, p, n, f);
  }

  lemma ReadPackedHeader(buf: seq<byte>, p: nat, g: Group, off: u64, addend: u64)
    requires |g.relocs| < TWO64 / 2
    requires At(buf, p, PackHeader(g, off, addend))
    ensures ReadHeader(buf, p, addend) ==
      Some(Header(|g.relocs|, FlagsOf(g), if g.byDelta then SharedDelta(g, off) else 0,
        if g.byInfo then SharedInfo(g) else 0,
                  StartAddend(g, addend), p + |PackHeader(g, off, addend)|))
  {
    hide Num, NumIf, Read, ReadIf, Diff, FlagsOf, ByInfo, ByDelta, ByAddend, HasAddend, SharedDelta, SharedInfo,
      SharedAddend, At, PackHeader;
    SplitHeader(buf, p, g, off, addend);
    var n, f := Num(|g.relocs|), Num(FlagsOf(g));
    var d, i, a := SharedDelta(g, off), SharedInfo(g), Diff(SharedAddend(g, addend), addend);
    var both := g.byAddend && g.hasAddend;
    var q := p + |n| + |f|;
    var q' := q + |NumIf(g.byDelta, d)|;
    var q'' := q' + |NumIf(g.byInfo, i)|;
    ReadNum(buf, p, |g.relocs|);
    ReadNum(buf, p + |n|, FlagsOf(g));
    ReadIfNum(g.byDelta, buf, q, d);
    ReadIfNum(g.byInfo, buf, q', i);
    ReadIfNum(both, buf, q'', a);
    if g.byDelta { ReadIfDefault(true, buf, q, d, 0); } else { ReadIfNot(buf, q, d); ReadIfNot(buf, q, 0); }
    if g.byInfo { ReadIfDefault(true, buf, q', i, 0); } else { ReadIfNot(buf, q', i); ReadIfNot(buf, q', 0); }
    if both { ReadIfDefault(true, buf, q'', a, 0); } else { ReadIfNot(buf, q'', a); ReadIfNot(buf, q'', 0); }
    AddDiff(SharedAddend(g, addend), addend);
  }

  lemma SizeIsNum(g: Group)
    requires |g.relocs| < TWO64 / 2
    ensures Num(|g.relocs|) == Write(|g.relocs|)
  {
  }

  // ----- whole streams -----

  lemma TruthfulAgrees(g: Group, off: u64, addend: u64)
    requires Truthful(g, off)
    ensures Agrees(g, g.relocs, off, if g.byDelta then SharedDelta(g, off) else 0,
      if g.byInfo then SharedInfo(g) else 0,
                   StartAddend(g, addend))
  {
    hide DeltasAre, Diff;
  }

  lemma {:induction false} NothingLeft(gs: seq<Group>)
    requires |Flatten(gs)| == 0
    ensures Flatten(gs) == []
  {
  }

  lemma HeaderNonEmpty(g: Group, off: u64, addend: u64)
    ensures |PackHeader(g, off, addend)| > 0
  {
    hide Num, Write;
    assert |Write(|g.relocs|)| >= 1;
  }

  lemma {:induction false} ReadPackedGroups(buf: seq<byte>, p: nat, gs: seq<Group>, off: u64, addend: u64)
    requires AllTruthful(gs, off) && |Flatten(gs)| < TWO64 / 2
    requires p + |PackGroups(gs, off, addend)| == |buf| && At(buf, p, PackGroups(gs, off, addend))
    ensures ReadGroups(buf, p, |Flatten(gs)|, off, addend) == Some(Flatten(gs))
    decreases |gs|
  {
    hide ReadHeader, ReadRelocs, PackHeader, PackRelocs, Truthful, FlagsOf, Agrees, HasAddend, At;
    if |Flatten(gs)| == 0 {
      NothingLeft(gs);
    } else {
      var g := gs[0];
      var start := StartAddend(g, addend);
      var hs, rs := PackHeader(g, off, addend), PackRelocs(g, g.relocs, off, start);
      var off', addend' := OffsetEnd(g.relocs, off), Carry(g, addend);
      var rest := PackGroups(gs[1..], off', addend');
      AtSplit(buf, p, hs + rs, rest);
      AtSplit(buf, p, hs, rs);
      HeaderNonEmpty(g, off, addend);
      ReadPackedHeader(buf, p, g, off, addend);
      TruthfulAgrees(g, off, addend);
      var delta, info := if g.byDelta then SharedDelta(g, off) else 0, if g.byInfo then SharedInfo(g) else 0;
      ReadPackedRelocs(buf, p + |hs|, g, g.relocs, off, delta, info, start);
      ReadPackedGroups(buf, p + |hs| + |rs|, gs[1..], off', addend');
      assert HasAddend(FlagsOf(g)) == g.hasAddend;
      assert |Flatten(gs)| - |g.relocs| == |Flatten(gs[1..])|;
    }
  }

  /** Every truthful grouping of every relocation list, from any start offset,
      unpacks to that list. */
  lemma UnpackPack(gs: seq<Group>, start: u64)
    requires AllTruthful(gs, start) && |Flatten(gs)| < TWO64 / 2
    ensures Unpack(Pack(gs, start)) == Some(Flatten(gs))
  {
    hide Num, Write, Read, PackGroups, ReadGroups, Flatten, AllTruthful;
    var buf := Pack(gs, start);
    var n, s, body := Write(|Flatten(gs)|), Num(start), PackGroups(gs, start, 0);
    assert At(buf, 0, MAGIC + n + s + body);
    AtSplit(buf, 0, MAGIC + n + s, body);
    AtSplit(buf, 0, MAGIC + n, s);
    AtSplit(buf, 0, MAGIC, n);
    CountIsNum(|Flatten(gs)|);
    ReadNum(buf, 4, |Flatten(gs)|);
    ReadNum(buf, 4 + |n|, start);
    ReadPackedGroups(buf, 4 + |n| + |s|, gs, start, 0);
  }

  lemma CountIsNum(n: nat)
    requires n < TWO64 / 2
    ensures Num(n) == Write(n) && Signed(n) == n
  {
  }

  // ----- applying a packed stream -----

  lemma ApplyNone(ld: Loader, mem: Image)
    ensures ApplyAll(ld, mem, []) == Ok(mem)
  {
  }

  ghost function GroupOf(buf: seq<byte>, h: Header, off: u64): Option<Decoded> {
    ReadRelocs(buf, h.pos, Count(h.size), h.flags, h.delta, h.info, off, h.addend)
  }

  lemma GroupsUnfold(ld: Loader, mem: Image, buf: seq<byte>, p: nat, left: int, off: u64, addend: u64)
    requires left > 0 && p < |buf| && ReadGroups(buf, p, left, off, addend).Some?
    ensures ReadHeader(buf, p, addend).Some?
    ensures var h := ReadHeader(buf, p, addend).value;
      GroupOf(buf, h, off).Some? &&
      var g := GroupOf(buf, h, off).value;
      var rest := ReadGroups(buf, g.pos, left - h.size, g.offset, if HasAddend(h.flags) then g.addend else 0);
      rest.Some? &&
      ApplyAll(ld, mem, ReadGroups(buf, p, left, off, addend).value) ==
        match ApplyAll(ld, mem, g.relocs) case Err => Err case Ok(mem') => ApplyAll(ld, mem', rest.value)
  {
    hide ReadHeader, ReadRelocs, ApplyAll, HasAddend;
    var h := ReadHeader(buf, p, addend).value;
    var g := GroupOf(buf, h, off).value;
    var rest := ReadGroups(buf, g.pos, left - h.size, g.offset, if HasAddend(h.flags) then g.addend else 0);
    ApplyAllConcat(ld, mem, g.relocs, rest.value);
  }

  lemma RelocsUnfold(ld: Loader, mem: Image, buf: seq<byte>, p: nat, n: nat, h: Header, off: u64, addend: u64)
    requires n > 0 && ReadRelocs(buf, p, n, h.flags, h.delta, h.info, off, addend).Some?
    ensures ReadOne(buf, p, h.flags, h.delta, h.info, off, addend).Some?
    ensures var one := ReadOne(buf, p, h.flags, h.delta, h.info, off, addend).value;
      var spec := ReadRelocs(buf, p, n, h.flags, h.delta, h.info, off, addend).value;
      var rest := ReadRelocs(buf, one.pos, n - 1, h.flags, h.delta, h.info, one.offset, one.addend);
      rest.Some? && spec == rest.value.(relocs := spec.relocs) &&
      ApplyAll(ld, mem, spec.relocs) ==
        match ApplyOne(ld, mem, one.relocs[0]) case Err => Err case Ok(mem') => ApplyAll(ld, mem', rest.value.relocs)
  {
    hide ReadOne, ApplyOne;
    var one := ReadOne(buf, p, h.flags, h.delta, h.info, off, addend).value;
    var rest := ReadRelocs(buf, one.pos, n - 1, h.flags, h.delta, h.info, one.offset, one.addend).value;
    assert (one.relocs + rest.relocs)[1..] == rest.relocs;
  }

  /** The inner loop over one group. */
  method ApplyRelocs(ld: Loader, mem0: Image, buf: seq<byte>, h: Header, off0: u64)
    returns (res: Result<Image>, p: nat, off: u64, addend: u64)
    ensures GroupOf(buf, h, off0).None? ==> res == Err
    ensures GroupOf(buf, h, off0).Some? ==> res == ApplyAll(ld, mem0, GroupOf(buf, h, off0).value.relocs)
    ensures GroupOf(buf, h, off0).Some? && res.Ok? ==>
      p == GroupOf(buf, h, off0).value.pos && off == GroupOf(buf, h, off0).value.offset &&
      addend == GroupOf(buf, h, off0).value.addend
    ensures h.pos <= p
  {
    hide ReadOne, ApplyOne, ApplyAll, ReadRelocs;
    ghost var n, spec := Count(h.size), GroupOf(buf, h, off0);
    var mem := mem0;
    p, off, addend := h.pos, off0, h.addend;
    var i := 0;
    while i < h.size
      invariant 0 <= i <= n && h.pos <= p
      invariant spec.None? ==> ReadRelocs(buf, p, n - i, h.flags, h.delta, h.info, off, addend).None?
      invariant spec.Some? ==>
        var cur := ReadRelocs(buf, p, n - i, h.flags, h.delta, h.info, off, addend);
        cur.Some? && spec.value == cur.value.(relocs := spec.value.relocs) &&
        ApplyAll(ld, mem0, spec.value.relocs) == ApplyAll(ld, mem, cur.value.relocs)
    {
      if spec.Some? { RelocsUnfold(ld, mem, buf, p, n - i, h, off, addend); }
      ReadRelocsUnfold(buf, p, n - i, h.flags, h.delta, h.info, off, addend);
      var one := ReadOne(buf, p, h.flags, h.delta, h.info, off, addend);
      if one.None? {
        res := Err;
        return;
      }
      var step := ApplyOne(ld, mem, one.value.relocs[0]);
      if step.Err? {
        res := Err;
        return;
      }
      mem := step.value;
      p, off, addend := one.value.pos, one.value.offset, one.value.addend;
      i := i + 1;
    }
    ReadRelocsNone(buf, p, h.flags, h.delta, h.info, off, addend);
    ApplyNone(ld, mem);
    res := Ok(mem);
  }

  /** The loop over groups. */
  method ApplyGroups(ld: Loader, mem0: Image, buf: seq<byte>, start: nat, count: int, start_off: u64)
    returns (res: Result<Image>)
    ensures ReadGroups(buf, start, count, start_off, 0).None? ==> res == Err
    ensures ReadGroups(buf, start, count, start_off, 0).Some? ==>
      res == ApplyAll(ld, mem0, ReadGroups(buf, start, count, start_off, 0).value)
  {
    hide ReadHeader, ApplyAll, HasAddend, GroupOf, ReadGroups;
    ghost var all := ReadGroups(buf, start, count, start_off, 0);
    var mem, p, left, off := mem0, start, count, start_off;
    var addend: u64 := 0;
    while left > 0 && p < |buf|
      invariant all.Some? <==> ReadGroups(buf, p, left, off, addend).Some?
      invariant all.Some? ==>
        ApplyAll(ld, mem0, all.value) == ApplyAll(ld, mem, ReadGroups(buf, p, left, off, addend).value)
      decreases |buf| - p
    {
      if all.Some? { GroupsUnfold(ld, mem, buf, p, left, off, addend); }
      if all.None? && ReadHeader(buf, p, addend).Some? { GroupsBreak(buf, p, left, off, addend); }
      var hdr := ReadHeader(buf, p, addend);
      if hdr.None? { return Err; }
      var h := hdr.value;
      var applied, p', off', addend' := ApplyRelocs(ld, mem, buf, h, off);
      if applied.Err? { return Err; }
      mem := applied.value;
      p, left, off := p', left - h.size, off';
      addend := if HasAddend(h.flags) then addend' else 0;
    }
    NoGroups(buf, p, left, off, addend);
    ApplyNone(ld, mem);
    res := Ok(mem);
  }

  lemma GroupsBreak(buf: seq<byte>, p: nat, left: int, off: u64, addend: u64)
    requires left > 0 && p < |buf| && ReadGroups(buf, p, left, off, addend).None? && ReadHeader(buf, p, addend).Some?
    ensures var h := ReadHeader(buf, p, addend).value;
      GroupOf(buf, h, off).None? ||
      var g := GroupOf(buf, h, off).value;
      ReadGroups(buf, g.pos, left - h.size, g.offset, if HasAddend(h.flags) then g.addend else 0).None?
  {
    hide ReadHeader, ReadRelocs, HasAddend;
  }

  lemma NoGroups(buf: seq<byte>, p: nat, left: int, off: u64, addend: u64)
    requires left <= 0 || p >= |buf|
    ensures ReadGroups(buf, p, left, off, addend) == Some([])
  {
  }

  /** apply_android_rela decodes from its private copy of the table and applies as it
      goes. Where the stream is well formed its effect is that of the list; where it
      breaks off inside a number there is no result. */
  method ApplyAndroidRela(ld: Loader, mem0: Image, table: nat, bytes: nat) returns (res: Result<Image>)
    ensures InImage(mem0, table, bytes) && Unpack(mem0[table..table + bytes]).Some? ==>
      res == ApplyAll(ld, mem0, Unpack(mem0[table..table + bytes]).value)
    ensures InImage(mem0, table, bytes) && Unpack(mem0[table..table + bytes]).None? ==> res == Err
    ensures !InImage(mem0, table, bytes) ==> res == Err
  {
    hide ReadGroups, ApplyAll, Read;
    if !InImage(mem0, table, bytes) {
      return Err;
    }
    var buf := mem0[table..table + bytes];
    if |buf| < 4 || buf[..4] != MAGIC {
      ApplyNone(ld, mem0);
      return Ok(mem0);
    }
    var count := Read(buf, 4);
    if count.None? { return Err; }
    var start := Read(buf, count.value.pos);
    if start.None? { return Err; }
    res := ApplyGroups(ld, mem0, buf, start.value.pos, Signed(count.value.value), start.value.value);
  }

  /** The packed table refines the flat one. Let one memory hold a list of
      relocations twice: as a flat RELA table no relocated slot touches, and packed in
      any truthful grouping anywhere. Then loading by either table has the same outcome,
      the same final memory or the same refusal. */
  lemma PackedRefinesFlat(ld: Loader, mem: Image, flat: nat, packed: nat, gs: seq<Group>, start: u64)
    requires AllTruthful(gs, start) && |Flatten(gs)| < TWO64 / 2
    requires Holds(mem, flat, Flatten(gs)) && SlotsMiss(ld, Flatten(gs), flat, RELA_SIZE * |Flatten(gs)|)
    requires At(mem, packed, Pack(gs, start))
    ensures var stream := mem[packed..packed + |Pack(gs, start)|];
      Unpack(stream).Some? && ApplyAll(ld, mem, Unpack(stream).value) == ApplyTable(ld, mem, flat, |Flatten(gs)|)
  {
    hide Pack, Unpack, Flatten, AllTruthful, ApplyAll, ApplyTable, Holds, SlotsMiss;
    UnpackPack(gs, start);
    TableIsList(ld, mem, flat, Flatten(gs));
  }
}

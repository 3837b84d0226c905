// The memory manager object: its fields and search loops, each operation proved
// against MemoryModel. `pages` stands for the engine's page table.

module MemoryClass {
  import opened Common
  import M = MemoryModel

  lemma FirstClashStep(regions: seq<M.Region>, i: nat, base: nat, size: nat)
    requires i <= |regions|
    ensures M.FirstClash(regions[i..], base, size) ==
      if i == |regions| then None
      else if M.Clash(regions[i], base, size) then Some(regions[i])
      else M.FirstClash(regions[i + 1..], base, size)
  {
    if i < |regions| { assert regions[i..][1..] == regions[i + 1..]; }
  }

  lemma ProbeStep(regions: seq<M.Region>, base: nat, size: nat, tries: nat)
    ensures M.FirstClash(regions, base, size) == None ==> M.Probe(regions, base, size, tries) == base
    ensures tries == 0 ==> M.Probe(regions, base, size, tries) == base
    ensures tries > 0 && M.FirstClash(regions, base, size).Some? ==>
      M.Probe(regions, base, size, tries) ==
      M.Probe(regions, M.FirstClash(regions, base, size).value.End(), size, tries - 1)
  {
  }

  lemma HoleStep(regions: seq<M.Region>, p: nat, end: nat)
    ensures M.HasHole(regions, p, end) ==
      (p < end && (!M.IsMapped(regions, p) || M.HasHole(regions, p + M.PAGE, end)))
  {
  }

  lemma NoteStep(regions: seq<M.Region>, i: nat, base: nat, size: nat, prot: nat)
    requires i < |regions|
    ensures M.NoteProt(regions[i..], base, size, prot) ==
      if regions[i].base == base && regions[i].size == size then [regions[i].(prot := prot)] + regions[i + 1..]
      else [regions[i]] + M.NoteProt(regions[i + 1..], base, size, prot)
  {
    assert regions[i..][1..] == regions[i + 1..];
  }

  lemma UpdateSplits(s: seq<M.Region>, i: nat, x: M.Region)
    requires i < |s|
    ensures s[i := x] == s[..i] + ([x] + s[i + 1..])
  {
  }

  lemma PrefixGrows(s: seq<M.Region>, i: nat, rest: seq<M.Region>)
    requires i < |s|
    ensures s[..i] + ([s[i]] + rest) == s[..i + 1] + rest
  {
  }

  class Memory {
    var regions: seq<M.Region>
    var pages: map<nat, nat>
    var libNext: nat
    var mmapNext: nat
    var bigNext: nat
    var heapNext: nat
    var heapEnd: nat
    var javaNext: nat
    var javaEnd: nat

    constructor (libBase: nat)
      ensures View() == M.Fresh(libBase)
    {
      regions, pages, libNext, mmapNext, bigNext := [], map[], libBase, M.MMAP_BASE, M.BIG_BASE;
      heapNext, heapEnd, javaNext, javaEnd := 0, 0, 0, 0;
    }

    ghost function View(): M.Mem
      reads this
    {
      M.Mem(regions, pages, libNext, mmapNext, bigNext, heapNext, heapEnd, javaNext, javaEnd)
    }

    method RegionOf(addr: nat) returns (r: Option<M.Region>)
      ensures r.Some? <==> M.IsMapped(regions, addr)
      ensures r.Some? ==> r.value in regions && r.value.base <= addr < r.value.End()
    {
      for i := 0 to |regions|
        invariant forall j :: 0 <= j < i ==> !(regions[j].base <= addr < regions[j].End())
      {
        if regions[i].base <= addr < regions[i].End() {
          return Some(regions[i]);
        }
      }
      r := None;
    }

    method AddRegion(r: M.Region) returns (ok: bool)
      modifies this`regions, this`pages
      ensures ok == M.AddRegion(old(View()), r).Ok?
      ensures View() == if ok then M.AddRegion(old(View()), r).value else old(View())
    {
      ok := M.EngineAccepts(pages, r.base, r.size);
      if ok {
        pages := M.SetPages(pages, r.base, r.size, r.prot);
        regions := M.Insert(regions, r);
      }
    }

    method MapFixed(addr: nat, len: nat, prot: nat, kind: M.Kind) returns (res: Result<nat>)
      modifies this`regions, this`pages
      ensures (View(), res) == M.MapFixed(old(View()), addr, len, prot, kind)
    {
      hide M.AlignDown, M.AlignUp64, M.Add64, M.AddRegion;
      var base := M.AlignDown(addr);
      var end := M.AlignUp64(M.Add64(addr, len));
      for i := 0 to |regions|
        invariant !M.Overlaps(regions[..i], base, end)
      {
        assert regions[..i + 1] == regions[..i] + [regions[i]];
        if base < regions[i].End() && regions[i].base < end {
          assert M.Overlaps(regions, base, end);
          return Err;
        }
      }
      assert regions[..|regions|] == regions;
      var ok := AddRegion(M.Region(base, (end - base) % TWO64, prot, kind));
      res := if ok then Ok(base) else Err;
    }

    method FindClash(base: nat, size: nat) returns (r: Option<M.Region>)
      ensures r == M.FirstClash(regions, base, size)
    {
      hide M.FirstClash;
      assert regions[0..] == regions;
      var i := 0;
      while i < |regions|
        invariant i <= |regions|
        invariant M.FirstClash(regions, base, size) == M.FirstClash(regions[i..], base, size)
      {
        FirstClashStep(regions, i, base, size);
        if base < regions[i].End() && regions[i].base < base + size {
          return Some(regions[i]);
        }
        i := i + 1;
      }
      FirstClashStep(regions, i, base, size);
      r := None;
    }

    /** The gap search of mmap_alloc. */
    method FindGap(size: nat) returns (base: nat)
      ensures base == M.Probe(regions, mmapNext, size, M.MaxTries())
    {
      hide M.MaxTries, M.Probe, M.FirstClash;
      base := mmapNext;
      var tries := 0;
      var clash := true;
      while tries < M.MaxTries() && clash
        invariant tries <= M.MaxTries()
        invariant M.Probe(regions, mmapNext, size, M.MaxTries()) ==
          if clash then M.Probe(regions, base, size, M.MaxTries() - tries) else base
      {
        ProbeStep(regions, base, size, M.MaxTries() - tries);
        var r := FindClash(base, size);
        if r.Some? {
          base := r.value.End();
        } else {
          clash := false;
        }
        tries := tries + 1;
      }
      ProbeStep(regions, base, size, 0);
    }

    method MmapAlloc(len: nat, prot: nat) returns (res: Result<nat>)
      modifies this`regions, this`pages, this`mmapNext
      ensures (View(), res) == M.MmapAlloc(old(View()), len, prot)
    {
      hide M.MaxTries, M.Probe, M.AlignUp, M.AddRegion;
      if len > TWO32 {
        return Err;
      }
      var size := M.AlignUp(if len > 0 then len else 1);
      var base := FindGap(size);
      var ok := AddRegion(M.Region(base, size, prot, M.Mmap));
      if !ok {
        return Err;
      }
      mmapNext := base + size;
      res := Ok(base);
    }

    method BigAlloc(len: nat, prot: nat) returns (res: Result<nat>)
      modifies this`regions, this`pages, this`mmapNext, this`bigNext
      ensures (View(), res) == M.BigAlloc(old(View()), len, prot)
    {
      hide M.MmapAlloc, M.AlignUp, M.AddRegion;
      var size := M.AlignUp(if len > 0 then len else 1);
      if bigNext + size > M.MMAP_BASE {
        res := MmapAlloc(len, prot);
        return;
      }
      var base := bigNext;
      var ok := AddRegion(M.Region(base, size, prot, M.Mmap));
      if !ok {
        return Err;
      }
      bigNext := base + size;
      res := Ok(base);
    }

    method MapLib(total: nat, prot: nat) returns (res: Result<nat>)
      modifies this`regions, this`pages, this`libNext
      ensures (View(), res) == M.MapLib(old(View()), total, prot)
    {
      hide M.AlignUp, M.AddRegion;
      var base := libNext;
      var size := M.AlignUp(total);
      var ok := AddRegion(M.Region(base, size, prot, M.Lib));
      if !ok {
        return Err;
      }
      libNext := base + size + M.PAGE;
      res := Ok(base);
    }

    method HeapInit() returns (ok: bool)
      modifies this`regions, this`pages, this`heapNext, this`heapEnd
      ensures ok == M.HeapInit(old(View())).Ok?
      ensures View() == if ok then M.HeapInit(old(View())).value else old(View())
    {
      hide M.AddRegion;
      if heapNext != 0 {
        return true;
      }
      ok := AddRegion(M.Region(M.HEAP_BASE, M.HEAP_SIZE, M.RW, M.Heap));
      if ok {
        heapNext := M.HEAP_BASE;
        heapEnd := M.HEAP_BASE + M.HEAP_SIZE;
      }
    }

    method HeapAlloc(len: nat, align: nat) returns (res: Result<nat>)
      requires M.PowerOfTwo(align)
      modifies this`regions, this`pages, this`heapNext, this`heapEnd, this`mmapNext
      ensures (View(), res) == M.HeapAlloc(old(View()), len, align)
    {
      hide M.AddRegion, M.MmapAlloc, M.HeapInit, M.RoundUp64, M.AlignUp64, M.Add64;
      var ok := HeapInit();
      if !ok {
        return Err;
      }
      var p := M.RoundUp64(heapNext, align);
      if M.Add64(p, len) > heapEnd {
        var want := M.AlignUp64(if len > M.HEAP_EXTENT then len else M.HEAP_EXTENT);
        var ext := MmapAlloc(want, M.RW);
        if ext.Err? {
          MmapFailureKeeps(M.HeapInit(old(View())).value, want);
          return Ok(0);
        }
        if ext.value == 0 {
          return Ok(0);
        }
        heapNext := ext.value;
        heapEnd := M.Add64(ext.value, want);
        p := M.RoundUp64(heapNext, align);
        if M.Add64(p, len) > heapEnd {
          return Ok(0);
        }
      }
      var x := M.Add64(len, 0x1f);
      var footprint := x - x % 0x20;
      heapNext := M.Add64(M.Add64(p, footprint), 16);
      res := Ok(p);
    }

    static lemma MmapFailureKeeps(m: M.Mem, len: nat)
      requires M.MmapAlloc(m, len, M.RW).1.Err?
      ensures M.MmapAlloc(m, len, M.RW).0 == m
    {
      hide M.MaxTries, M.Probe, M.AlignUp, M.AddRegion;
    }

    method JavaAlloc(len: nat, align: nat) returns (res: Result<nat>)
      requires M.PowerOfTwo(align)
      modifies this`regions, this`pages, this`javaNext, this`javaEnd
      ensures (View(), res) == M.JavaAlloc(old(View()), len, align)
    {
      hide M.AddRegion, M.RoundUp64, M.Add64;
      if javaNext == 0 {
        var ok := AddRegion(M.Region(M.JAVA_BASE, M.JAVA_SIZE, M.RW, M.Java));
        if !ok {
          return Err;
        }
        javaNext := M.JAVA_BASE;
        javaEnd := M.JAVA_BASE + M.JAVA_SIZE;
      }
      var p := M.RoundUp64(javaNext, align);
      if M.Add64(p, len) > javaEnd {
        return Err;
      }
      javaNext := M.Add64(p, len);
      res := Ok(p);
    }

    // ----- protect -----

    method FindHole(base: nat, end: nat) returns (hole: bool)
      ensures hole == M.HasHole(regions, base, end)
    {
      hide M.HasHole, M.IsMapped;
      var p := base;
      while p < end
        invariant M.HasHole(regions, base, end) == M.HasHole(regions, p, end)
        decreases end - p
      {
        HoleStep(regions, p, end);
        var r := RegionOf(p);
        if r.None? {
          return true;
        }
        p := p + M.PAGE;
      }
      HoleStep(regions, p, end);
      hole := false;
    }

    method FillHoles(base: nat, end: nat, prot: nat) returns (ok: bool)
      modifies this`regions, this`pages
      ensures (View(), ok) == M.FillFrom(old(View()), base, end, prot)
    {
      hide M.IsMapped, M.MapFixed, M.SetPages;
      var p := base;
      while p < end
        invariant M.FillFrom(old(View()), base, end, prot) == M.FillFrom(View(), p, end, prot)
        decreases end - p
      {
        ghost var before := View();
        var r := RegionOf(p);
        if r.Some? {
          pages := M.SetPages(pages, p, M.PAGE, prot);
        } else {
          var res := MapFixed(p, M.PAGE, if prot != 0 then prot else M.RW, M.Other);
          if res.Err? {
            assert View() == before by {
              FixedFailureKeeps(before, p, M.PAGE, if prot != 0 then prot else M.RW, M.Other);
            }
            return false;
          }
        }
        p := p + M.PAGE;
      }
      ok := true;
    }

    static lemma FixedFailureKeeps(m: M.Mem, addr: nat, len: nat, prot: nat, kind: M.Kind)
      requires M.MapFixed(m, addr, len, prot, kind).1.Err?
      ensures M.MapFixed(m, addr, len, prot, kind).0 == m
    {
      hide M.AlignUp, M.AlignDown, M.AddRegion, M.Free;
    }

    method NoteProt(base: nat, size: nat, prot: nat)
      modifies this`regions
      ensures regions == M.NoteProt(old(regions), base, size, prot)
    {
      hide M.NoteProt, M.SameRanges;
      ghost var all := regions;
      assert all[0..] == all && all[..0] == [];
      var i := 0;
      while i < |regions|
        invariant i <= |regions| && regions == all
        invariant M.NoteProt(all, base, size, prot) == all[..i] + M.NoteProt(all[i..], base, size, prot)
      {
        NoteStep(all, i, base, size, prot);
        if regions[i].base == base && regions[i].size == size {
          UpdateSplits(regions, i, regions[i].(prot := prot));
          regions := regions[i := regions[i].(prot := prot)];
          return;
        }
        PrefixGrows(all, i, M.NoteProt(all[i + 1..], base, size, prot));
        i := i + 1;
      }
      assert all[i..] == [] && all[..i] == all;
      NoteEmpty(base, size, prot);
    }

    static lemma NoteEmpty(base: nat, size: nat, prot: nat)
      ensures M.NoteProt([], base, size, prot) == []
    {
    }

    method Protect(addr: nat, len: nat, prot: nat) returns (ok: bool)
      modifies this`regions, this`pages
      ensures (View(), ok) == M.Protect(old(View()), addr, len, prot)
    {
      hide M.AlignUp, M.AlignDown, M.HasHole, M.FillFrom, M.NoteProt, M.SetPages;
      var base := M.AlignDown(addr);
      var size := M.AlignUp(addr + len) - base;
      var hole := FindHole(base, base + size);
      if hole {
        ok := FillHoles(base, base + size, prot);
        if !ok {
          return;
        }
      } else {
        pages := M.SetPages(pages, base, size, prot);
      }
      NoteProt(base, size, prot);
      ok := true;
    }
  }
}

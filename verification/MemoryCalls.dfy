// What each request changes, in terms of the guest's pages: which addresses become mapped,
// with what protection, what is recorded about them, and which cursor moves.

module MemoryCalls {
  import opened Common
  import opened MemoryModel
  import opened MemoryInvariant
  import opened MemoryProtect
  import opened MemoryHistory

  /** None of these addresses is mapped. */
  ghost predicate Unmapped(m: Mem, base: nat, size: nat) {
    forall a :: a in m.pages ==> !(base <= a < base + size)
  }

  /** The range was free and is now mapped and recorded; no other page changed. */
  ghost predicate NowMapped(m: Mem, m': Mem, r: Region) {
    && Unmapped(m, r.base, r.size)
    && (forall a: nat :: a in m'.pages <==> a in m.pages || (a % 4096 == 0 && r.base <= a < r.End()))
    && (forall a: nat :: a in m'.pages ==> m'.pages[a] == if r.base <= a < r.End() then r.prot else m.pages[a])
    && multiset(m'.regions) == multiset(m.regions) + multiset{r}
  }

  /** Nothing but the mapping itself changed. */
  predicate CursorsStay(m: Mem, m': Mem) {
    m' == m.(regions := m'.regions, pages := m'.pages)
  }

  /** A length in whole pages. */
  function Pages(n: nat): nat { (n + 4095) / 4096 * 4096 }

  lemma PagesAlign(n: nat)
    ensures AlignUp(n) == Pages(n)
  {
  }

  lemma {:induction false} InsertAdds(regions: seq<Region>, r: Region)
    ensures multiset(Insert(regions, r)) == multiset(regions) + multiset{r}
  {
    if regions != [] {
      assert regions == [regions[0]] + regions[1..];
      if r.base >= regions[0].base { InsertAdds(regions[1..], r); }
    }
  }

  /** Mapping a page-aligned range works if and only if the range is neither empty nor past
      the end and none of it is mapped. */
  lemma AddMaps(m: Mem, r: Region)
    requires Inv(m) && Aligned(r.base) && Aligned(r.size)
    ensures AddRegion(m, r).Ok? <==> r.size > 0 && r.End() <= TWO64 && Unmapped(m, r.base, r.size)
    ensures AddRegion(m, r).Ok? ==> NowMapped(m, AddRegion(m, r).value, r) && CursorsStay(m, AddRegion(m, r).value)
  {
    hide Insert, Synced, RegionsOk, IsMapped;
    InsertAdds(m.regions, r);
    if AddRegion(m, r).Ok? { NoneThere(m, r.base, r.size); }
  }

  lemma NoneThere(m: Mem, base: nat, size: nat)
    requires EngineAccepts(m.pages, base, size)
    ensures Unmapped(m, base, size)
  {
  }

  // ----- fixed mappings -----

  /** A fixed mapping covers whole pages, from the one of its first byte to the one of its
      last; it works if and only if none of them is mapped. */
  lemma FixedMaps(m: Mem, addr: nat, len: nat, prot: nat, kind: Kind)
    requires Inv(m) && addr + len + 4095 < TWO64
    ensures var lo := addr / 4096 * 4096;
      var size := Pages(addr + len) - lo;
      var (m', res) := MapFixed(m, addr, len, prot, kind);
      && (res.Ok? <==> size > 0 && Unmapped(m, lo, size))
      && (res.Err? ==> m' == m)
      && (res.Ok? ==> res.value == lo && NowMapped(m, m', Region(lo, size, prot, kind)) && CursorsStay(m, m'))
  {
    hide NowMapped, AddRegion, Aligned, Unmapped, Overlaps, Inv, CursorsStay, AlignUp64, Add64;
    var lo, size := addr / 4096 * 4096, Pages(addr + len) - addr / 4096 * 4096;
    FixedRange(addr, len);
    var r := Region(lo, size, prot, kind);
    AddMaps(m, r);
    AddRegionFree(m, r);
    if AddRegion(m, r).Ok? { FreeNoOverlap(m.regions, lo, size, lo + size); }
  }

  lemma FixedRange(addr: nat, len: nat)
    requires addr + len + 4095 < TWO64
    ensures var lo, hi := addr / 4096 * 4096, Pages(addr + len);
      && AlignDown(addr) == lo && AlignUp64(Add64(addr, len)) == hi && lo <= hi <= TWO64 && Aligned(lo)
      && (hi - lo) % TWO64 == hi - lo && Aligned(hi - lo)
  {
    var lo, hi := addr / 4096 * 4096, Pages(addr + len);
    assert Aligned(lo) && Aligned(hi);
  }

  lemma AddRegionFree(m: Mem, r: Region)
    requires Inv(m) && Aligned(r.base) && Aligned(r.size)
    ensures AddRegion(m, r).Ok? ==> Free(m.regions, r.base, r.size)
  {
    hide Inv;
    AddRegionSpec(m, r);
  }

  // ----- libraries -----

  /** A library goes where the last one ended, one unmapped page further on. */
  lemma LibMaps(m: Mem, len: nat, prot: nat)
    requires Inv(m)
    ensures var base, size := m.libNext, Pages(len);
      var (m', res) := MapLib(m, len, prot);
      && (res.Ok? <==> size > 0 && base + size <= TWO64 && Unmapped(m, base, size))
      && (res.Err? ==> m' == m)
      && (res.Ok? ==> && res.value == base && NowMapped(m, m', Region(base, size, prot, Lib))
                      && m'.libNext == base + size + 4096 && CursorsStay(m, m'.(libNext := base)))
  {
    hide AddRegion, Aligned, Unmapped, Synced, RegionsOk;
    PagesAlign(len);
    AddMaps(m, Region(m.libNext, Pages(len), prot, Lib));
  }

  // ----- blocks -----

  /** A mapping wherever there is room: the least address from the cursor on. */
  lemma MmapMaps(m: Mem, len: nat, prot: nat)
    requires Inv(m)
    ensures var size := Pages(if len > 0 then len else 1);
      var (m', res) := MmapAlloc(m, len, prot);
      && (res.Err? ==> m' == m)
      && (res.Ok? ==> && LeastFree(m.regions, m.mmapNext, size, res.value)
                      && NowMapped(m, m', Region(res.value, size, prot, Mmap))
                      && m'.mmapNext == res.value + size && CursorsStay(m, m'.(mmapNext := m.mmapNext)))
  {
    hide AddRegion, Aligned, Unmapped, Synced, RegionsOk, MmapAlloc, LeastFree;
    PagesAlign(if len > 0 then len else 1);
    MmapAllocIsFirstFit(m, len, prot);
    var (m', res) := MmapAlloc(m, len, prot);
    if res.Ok? {
      MmapResult(m, len, prot);
      AddMaps(m, Region(res.value, RequestSize(len), prot, Mmap));
    }
  }

  /** A big block goes to the big area while it fits there, and counts as a mapping. */
  lemma BigMaps(m: Mem, len: nat, prot: nat)
    requires Inv(m)
    ensures var base, size := m.bigNext, Pages(if len > 0 then len else 1);
      var (m', res) := BigAlloc(m, len, prot);
      if base + size > 0x7000_0000 then (m', res) == MmapAlloc(m, len, prot)
      else
        && (res.Ok? <==> Unmapped(m, base, size))
        && (res.Err? ==> m' == m)
        && (res.Ok? ==> && res.value == base && NowMapped(m, m', Region(base, size, prot, Mmap))
                        && m'.bigNext == base + size && CursorsStay(m, m'.(bigNext := base)))
  {
    hide AddRegion, Aligned, Unmapped, Synced, RegionsOk, MmapAlloc;
    var size := Pages(if len > 0 then len else 1);
    PagesAlign(if len > 0 then len else 1);
    AddMaps(m, Region(m.bigNext, size, prot, Mmap));
  }

  // ----- the bump heaps -----

  /** The heap is mapped, readable and writable, by the first request. */
  lemma HeapMaps(m: Mem)
    requires Inv(m) && m.heapNext == 0
    ensures HeapInit(m).Ok? <==> Unmapped(m, 0x4000_0000, 0x800_0000)
    ensures HeapInit(m).Ok? ==>
      var m1 := HeapInit(m).value;
      && NowMapped(m, m1, Region(0x4000_0000, 0x800_0000, 3, Heap)) && m1.heapNext == 0x4000_0000
      && m1.heapEnd == 0x4800_0000 && CursorsStay(m, m1.(heapNext := m.heapNext, heapEnd := m.heapEnd))
  {
    hide AddRegion, Unmapped, Synced, RegionsOk;
    AddMaps(m, Region(HEAP_BASE, HEAP_SIZE, RW, Heap));
  }

  lemma JavaMaps(m: Mem)
    requires Inv(m) && m.javaNext == 0
    ensures JavaInit(m).Ok? <==> Unmapped(m, 0x3000_0000, 0x400_0000)
    ensures JavaInit(m).Ok? ==>
      var m1 := JavaInit(m).value;
      && NowMapped(m, m1, Region(0x3000_0000, 0x400_0000, 3, Java)) && m1.javaNext == 0x3000_0000
      && m1.javaEnd == 0x3400_0000 && CursorsStay(m, m1.(javaNext := m.javaNext, javaEnd := m.javaEnd))
  {
    hide AddRegion, Unmapped, Synced, RegionsOk;
    AddMaps(m, Region(JAVA_BASE, JAVA_SIZE, RW, Java));
  }

  /** Blocks of the arena: the first multiple of the alignment from the cursor on. The next
      one starts behind it, its length rounded up to 32 and a gap of 16. */
  lemma HeapBumps(m: Mem, len: nat, align: nat)
    requires 0 < m.heapNext && 0 < align && RoundUp(m.heapNext, align) + len <= m.heapEnd < TWO64 - 0x2f
    requires m.heapNext + align <= TWO64
    ensures var p := RoundUp(m.heapNext, align);
      HeapAlloc(m, len, align) == (m.(heapNext := p + (len + 31) / 32 * 32 + 16), Ok(p))
  {
    hide RoundUp, RoundUp64, MmapAlloc, Add64;
    var p, x := RoundUp(m.heapNext, align), len + 31;
    assert x - x % 32 == x / 32 * 32;
  }

  lemma JavaBumps(m: Mem, len: nat, align: nat)
    requires 0 < m.javaNext && 0 < align && RoundUp(m.javaNext, align) + len < TWO64 && m.javaNext + align <= TWO64
    ensures var p := RoundUp(m.javaNext, align);
      JavaAlloc(m, len, align) == if p + len <= m.javaEnd then (m.(javaNext := p + len), Ok(p)) else (m, Err)
  {
    hide RoundUp, RoundUp64, Add64;
  }

  /** Rounding up is the least multiple that is not below. */
  lemma RoundUpIsLeast(a: nat, align: nat, k: nat)
    requires align > 0 && a <= k * align
    ensures a <= RoundUp(a, align) <= k * align && Multiple(RoundUp(a, align), align)
  {
    var q := (a + align - 1) / align;
    RoundUpMultiple(a, align);
    if k < q { TimesFar(k, q, align); }
  }

  // ----- protection -----

  /** Protecting exactly a recorded range changes the protection on record, and nothing else
      is changed on record. */
  lemma {:induction false} NoteExact(regions: seq<Region>, base: nat, size: nat, prot: nat, i: nat)
    requires RegionsOk(regions) && i < |regions|
    ensures var r := NoteProt(regions, base, size, prot);
      r[i] == if regions[i].base == base && regions[i].size == size then regions[i].(prot := prot) else regions[i]
  {
    hide RegionsOk, NoteProt;
    NoteUnfold(regions, base, size, prot);
    if i > 0 {
      TailOk(regions);
      NoteExact(regions[1..], base, size, prot, i - 1);
      LaterBase(regions, i);
    }
  }

  lemma NoteUnfold(regions: seq<Region>, base: nat, size: nat, prot: nat)
    requires regions != []
    ensures NoteProt(regions, base, size, prot) ==
      if regions[0].base == base && regions[0].size == size then [regions[0].(prot := prot)] + regions[1..]
      else [regions[0]] + NoteProt(regions[1..], base, size, prot)
  {
  }

  lemma LaterBase(regions: seq<Region>, i: nat)
    requires RegionsOk(regions) && 0 < i < |regions|
    ensures regions[0].base < regions[i].base
  {
  }

  lemma TailOk(regions: seq<Region>)
    requires RegionsOk(regions) && regions != []
    ensures RegionsOk(regions[1..])
  {
  }

  lemma {:induction false} FillMembers(m: Mem, p: nat, end: nat, prot: nat, r: Region)
    requires Inv(m) && Aligned(p) && Aligned(end) && p <= end <= TWO64 && r in m.regions
    ensures r in FillFrom(m, p, end, prot).0.regions
    decreases end - p
  {
    hide Inv, Aligned, IsMapped, SetPages, MapFixed;
    if p < end {
      AlignedGap(p, end);
      if IsMapped(m.regions, p) {
        ProtectPage(m, p, prot);
        FillMembers(m.(pages := SetPages(m.pages, p, PAGE, prot)), p + PAGE, end, prot, r);
      } else {
        var prot' := if prot != 0 then prot else RW;
        MapOnePage(m, p, prot');
        AddMembers(m, Region(p, PAGE, prot', Other), r);
        FillMembers(MapFixed(m, p, PAGE, prot', Other).0, p + PAGE, end, prot, r);
      }
    }
  }

  lemma AddMembers(m: Mem, x: Region, r: Region)
    requires Inv(m) && AddRegion(m, x).Ok? && r in m.regions
    ensures r in AddRegion(m, x).value.regions
  {
    hide Insert, RegionsOk, Synced;
    InsertMembers(m.regions, x);
  }

  /** Whatever is protected, every recorded range stays on record as it was, but for the
      protection of a range that was protected as a whole. */
  lemma ProtectRecords(m: Mem, addr: nat, len: nat, prot: nat, r: Region)
    requires Inv(m) && Pages(addr + len) <= TWO64 && r in m.regions
    ensures var lo, hi := addr / 4096 * 4096, Pages(addr + len);
      var (m', ok) := Protect(m, addr, len, prot);
      && ok && CursorsStay(m, m') && PagesProtected(m.pages, m'.pages, lo, hi, prot)
      && (if r.base == lo && r.End() == hi then r.(prot := prot) else r) in m'.regions
  {
    hide HasHole, FillFrom, NoteProt, SetPages, PagesProtected, AlignUp, AlignDown, Aligned, Synced, RegionsOk;
    PagesAlign(addr + len);
    assert AlignDown(addr) == addr / 4096 * 4096 by { DownToPage(addr); }
    ProtectSpec(m, addr, len, prot);
    var base, end := AlignDown(addr), AlignUp(addr + len);
    FillSpec(m, base, end, prot);
    FillMembers(m, base, end, prot, r);
    FillCursors(m, base, end, prot);
    var m1 := if HasHole(m.regions, base, end) then FillFrom(m, base, end, prot).0
              else m.(pages := SetPages(m.pages, base, end - base, prot));
    var i :| 0 <= i < |m1.regions| && m1.regions[i] == r;
    NoteExact(m1.regions, base, end - base, prot, i);
  }

  lemma DownToPage(addr: nat)
    ensures AlignDown(addr) == addr / 4096 * 4096
  {
  }

  lemma {:induction false} FillCursors(m: Mem, p: nat, end: nat, prot: nat)
    ensures CursorsStay(m, FillFrom(m, p, end, prot).0)
    decreases end - p
  {
    hide IsMapped, SetPages, AddRegion, Overlaps, AlignDown, AlignUp64, Add64;
    if p < end {
      if IsMapped(m.regions, p) {
        FillCursors(m.(pages := SetPages(m.pages, p, PAGE, prot)), p + PAGE, end, prot);
      } else {
        FixedCursors(m, p, PAGE, if prot != 0 then prot else RW, Other);
        var (m', res) := MapFixed(m, p, PAGE, if prot != 0 then prot else RW, Other);
        FillCursors(m', p + PAGE, end, prot);
      }
    }
  }

  lemma FixedCursors(m: Mem, addr: nat, len: nat, prot: nat, kind: Kind)
    ensures CursorsStay(m, MapFixed(m, addr, len, prot, kind).0)
  {
    hide EngineAccepts, SetPages, Insert, Overlaps, AlignDown, AlignUp64, Add64;
  }
}

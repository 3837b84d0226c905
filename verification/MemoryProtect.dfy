// protect: on both the fast and the hole-filling path every page in range ends
// up mapped with the requested protection and nothing else changes.

module MemoryProtect {
  import opened Common
  import opened MemoryModel
  import opened MemoryInvariant

  /** The exact effect of a protect request on the page table. A hole requested
      with no access at all becomes readable and writable instead. */
  ghost predicate PagesProtected(before: map<nat, nat>, after: map<nat, nat>, base: nat, end: nat, prot: nat) {
    && (forall a: nat :: a in after <==> a in before || (Aligned(a) && base <= a < end))
    && (forall a: nat :: a in after ==>
          after[a] == if !(base <= a < end) then before[a]
                      else if a in before || prot != 0 then prot else RW)
  }

  lemma OnePage(p: nat, a: nat)
    requires Aligned(p) && Aligned(a) && p <= a < p + PAGE
    ensures a == p
  {
  }

  lemma PageMapped(m: Mem, p: nat)
    requires Inv(m) && Aligned(p)
    ensures IsMapped(m.regions, p) <==> !Free(m.regions, p, PAGE)
  {
    hide Aligned, Synced;
    if IsMapped(m.regions, p) {
      var i :| 0 <= i < |m.regions| && m.regions[i].base <= p < m.regions[i].End();
      assert Clash(m.regions[i], p, PAGE);
    }
    if !Free(m.regions, p, PAGE) {
      var i :| 0 <= i < |m.regions| && Clash(m.regions[i], p, PAGE);
      AlignedBelow(m.regions[i].base, p);
    }
  }

  lemma AlignedBelow(a: nat, b: nat)
    requires Aligned(a) && Aligned(b) && a < b + PAGE
    ensures a <= b
  {
  }

  lemma ProtectPage(m: Mem, p: nat, prot: nat)
    requires Inv(m) && Aligned(p) && IsMapped(m.regions, p)
    ensures Inv(m.(pages := SetPages(m.pages, p, PAGE, prot)))
    ensures PagesProtected(m.pages, SetPages(m.pages, p, PAGE, prot), p, p + PAGE, prot)
  {
    hide IsMapped, Aligned, RegionsOk, SetPages;
    forall a: nat | p <= a < p + PAGE && Aligned(a) ensures a == p { OnePage(p, a); }
  }

  // The end of a page, which is 0 for the last one.
  lemma PageEnd(p: nat)
    requires Aligned(p) && p + PAGE <= TWO64
    ensures var end := AlignUp64(Add64(p, PAGE));
      (end - p) % TWO64 == PAGE && end <= p + PAGE
  {
    if p + PAGE < TWO64 {
      AlignedExact(p);
      assert p + PAGE + PAGE - 1 < TWO64 ==> AlignUp64(Add64(p, PAGE)) == p + PAGE;
      LastPages(p);
    } else {
      assert Add64(p, PAGE) == 0;
    }
  }

  lemma LastPages(p: nat)
    requires Aligned(p) && p + PAGE < TWO64
    ensures p + PAGE + PAGE - 1 < TWO64
  {
  }

  lemma FreeNoOverlap(regions: seq<Region>, base: nat, size: nat, end: nat)
    requires Free(regions, base, size) && end <= base + size
    ensures !Overlaps(regions, base, end)
  {
    forall i | 0 <= i < |regions| ensures !(base < regions[i].End() && regions[i].base < end) {
      assert !Clash(regions[i], base, size);
    }
  }

  lemma MapOnePage(m: Mem, p: nat, prot: nat)
    requires Inv(m) && Aligned(p) && p + PAGE <= TWO64 && !IsMapped(m.regions, p)
    ensures AddRegion(m, Region(p, PAGE, prot, Other)).Ok?
    ensures MapFixed(m, p, PAGE, prot, Other) == (AddRegion(m, Region(p, PAGE, prot, Other)).value, Ok(p))
    ensures Inv(MapFixed(m, p, PAGE, prot, Other).0)
  {
    hide Inv, Aligned, IsMapped, SetPages, AlignDown, AlignUp64, Add64, AddRegion, Free, Overlaps;
    AlignedExact(p);
    PageMapped(m, p);
    PageEnd(p);
    FreeNoOverlap(m.regions, p, PAGE, AlignUp64(Add64(p, PAGE)));
    AddRegionSpec(m, Region(p, PAGE, prot, Other));
  }

  lemma FillPage(m: Mem, p: nat, prot: nat)
    requires Inv(m) && Aligned(p) && p + PAGE <= TWO64 && !IsMapped(m.regions, p)
    ensures var res := MapFixed(m, p, PAGE, if prot != 0 then prot else RW, Other);
      res.1.Ok? && Inv(res.0) && PagesProtected(m.pages, res.0.pages, p, p + PAGE, prot)
  {
    hide Inv, Aligned, IsMapped, SetPages, MapFixed, Insert;
    MapOnePage(m, p, if prot != 0 then prot else RW);
    NotInPages(m, p);
    forall a: nat | p <= a < p + PAGE && Aligned(a) ensures a == p { OnePage(p, a); }
  }

  lemma NotInPages(m: Mem, p: nat)
    requires Inv(m) && !IsMapped(m.regions, p)
    ensures p !in m.pages
  {
  }

  lemma AlignedExact(p: nat)
    requires Aligned(p)
    ensures AlignDown(p) == p && AlignUp(p + PAGE) == p + PAGE && Aligned(PAGE)
  {
  }

  lemma AlignedGap(p: nat, end: nat)
    requires Aligned(p) && Aligned(end) && p < end
    ensures p + PAGE <= end && Aligned(p + PAGE)
  {
  }

  lemma PagesChain(a: map<nat, nat>, b: map<nat, nat>, c: map<nat, nat>, p: nat, q: nat, end: nat, prot: nat)
    requires p <= q <= end
    requires PagesProtected(a, b, p, q, prot) && PagesProtected(b, c, q, end, prot)
    ensures PagesProtected(a, c, p, end, prot)
  {
    hide Aligned;
    forall x: nat | x in c
      ensures c[x] == if !(p <= x < end) then a[x] else if x in a || prot != 0 then prot else RW
    {
      if q <= x < end {
        assert x in b <==> x in a;
      } else {
        assert x in b && c[x] == b[x];
      }
    }
  }

  lemma {:induction false} FillSpec(m: Mem, p: nat, end: nat, prot: nat)
    requires Inv(m) && Aligned(p) && Aligned(end) && p <= end <= TWO64
    ensures var (m', ok) := FillFrom(m, p, end, prot);
      ok && Inv(m') && PagesProtected(m.pages, m'.pages, p, end, prot)
    decreases end - p
  {
    hide MapFixed, Inv, Aligned, IsMapped, SetPages, PagesProtected;
    if p < end {
      AlignedGap(p, end);
      var m1 := m.(pages := SetPages(m.pages, p, PAGE, prot));
      if IsMapped(m.regions, p) {
        ProtectPage(m, p, prot);
      } else {
        FillPage(m, p, prot);
        m1 := MapFixed(m, p, PAGE, if prot != 0 then prot else RW, Other).0;
      }
      FillSpec(m1, p + PAGE, end, prot);
      PagesChain(m.pages, m1.pages, FillFrom(m, p, end, prot).0.pages, p, p + PAGE, end, prot);
    } else {
      PagesSame(m.pages, p, prot);
    }
  }

  lemma PagesSame(pages: map<nat, nat>, p: nat, prot: nat)
    ensures PagesProtected(pages, pages, p, p, prot)
  {
  }

  lemma {:induction false} NoHole(regions: seq<Region>, p: nat, end: nat)
    requires Aligned(p) && Aligned(end) && !HasHole(regions, p, end)
    ensures forall a: nat :: Aligned(a) && p <= a < end ==> IsMapped(regions, a)
    decreases end - p
  {
    if p < end {
      AlignedGap(p, end);
      NoHole(regions, p + PAGE, end);
      hide IsMapped, HasHole;
      forall a: nat | Aligned(a) && p <= a < p + PAGE ensures a == p { OnePage(p, a); }
    }
  }

  lemma SameRangesMapped(r: seq<Region>, s: seq<Region>, a: nat)
    requires SameRanges(r, s) && IsMapped(s, a)
    ensures IsMapped(r, a)
  {
    var i :| 0 <= i < |s| && s[i].base <= a < s[i].End();
    assert r[i].base <= a < r[i].End();
  }

  lemma SameRangesOk(r: seq<Region>, s: seq<Region>)
    requires SameRanges(r, s) && RegionsOk(s)
    ensures RegionsOk(r)
  {
    hide Aligned;
    forall i, j | 0 <= i < j < |r| ensures r[i].End() <= r[j].base {
      assert s[i].End() <= s[j].base;
    }
  }

  lemma NoteProtKeepsInv(m: Mem, base: nat, size: nat, prot: nat)
    requires Inv(m)
    ensures Inv(m.(regions := NoteProt(m.regions, base, size, prot)))
  {
    hide Aligned, NoteProt, RegionsOk, IsMapped;
    var r := NoteProt(m.regions, base, size, prot);
    SameRangesOk(r, m.regions);
    forall a: nat ensures IsMapped(r, a) <==> IsMapped(m.regions, a) {
      if IsMapped(r, a) { SameRangesMapped(m.regions, r, a); }
      if IsMapped(m.regions, a) { SameRangesMapped(r, m.regions, a); }
    }
  }

  /** protect, for every request inside the address space: it succeeds, keeps the
      region-map invariant and has exactly the effect PagesProtected on the pages,
      whether or not the range has holes. */
  lemma ProtectSpec(m: Mem, addr: nat, len: nat, prot: nat)
    requires Inv(m) && AlignUp(addr + len) <= TWO64
    ensures var (m', ok) := Protect(m, addr, len, prot);
      ok && Inv(m') && PagesProtected(m.pages, m'.pages, AlignDown(addr), AlignUp(addr + len), prot)
  {
    hide Inv, HasHole, FillFrom, NoteProt, SetPages, PagesProtected, AlignUp, AlignDown, Aligned;
    var base, end := AlignDown(addr), AlignUp(addr + len);
    if HasHole(m.regions, base, end) {
      FillSpec(m, base, end, prot);
      NoteProtKeepsInv(FillFrom(m, base, end, prot).0, base, end - base, prot);
    } else {
      FastPath(m, base, end, prot);
      NoteProtKeepsInv(m.(pages := SetPages(m.pages, base, end - base, prot)), base, end - base, prot);
    }
  }

  lemma FastPath(m: Mem, base: nat, end: nat, prot: nat)
    requires Inv(m) && Aligned(base) && Aligned(end) && base <= end && !HasHole(m.regions, base, end)
    ensures Inv(m.(pages := SetPages(m.pages, base, end - base, prot)))
    ensures PagesProtected(m.pages, SetPages(m.pages, base, end - base, prot), base, end, prot)
  {
    hide HasHole, IsMapped, Aligned, RegionsOk, SetPages;
    NoHole(m.regions, base, end);
  }
}

// The region-map invariant: regions are sorted, page-aligned and disjoint, and
// the engine has mapped exactly the pages they cover.

module MemoryInvariant {
  import opened Common
  import opened MemoryModel

  ghost predicate RegionsOk(regions: seq<Region>) {
    && (forall i :: 0 <= i < |regions| ==>
          regions[i].size > 0 && Aligned(regions[i].base) && Aligned(regions[i].size) && regions[i].End() <= TWO64)
    && (forall i, j :: 0 <= i < j < |regions| ==> regions[i].End() <= regions[j].base)
  }

  ghost predicate Synced(m: Mem) {
    forall a: nat :: a in m.pages <==> Aligned(a) && IsMapped(m.regions, a)
  }

  ghost predicate CursorsOk(m: Mem) {
    && Aligned(m.mmapNext) && Aligned(m.bigNext) && Aligned(m.libNext)
    && m.mmapNext >= MMAP_BASE && m.bigNext >= BIG_BASE
  }

  ghost predicate Inv(m: Mem) {
    RegionsOk(m.regions) && Synced(m) && CursorsOk(m)
  }

  lemma FreshInv(libBase: nat)
    requires Aligned(libBase)
    ensures Inv(Fresh(libBase))
  {
  }

  // ----- inserting a region -----

  lemma InsertShifts(first: Region, rest: seq<Region>, r: Region, k: nat)
    requires k <= |rest|
    ensures [first] + (rest[..k] + [r] + rest[k..]) == ([first] + rest)[..k + 1] + [r] + ([first] + rest)[k + 1..]
  {
    assert ([first] + rest)[..k + 1] == [first] + rest[..k];
    assert ([first] + rest)[k + 1..] == rest[k..];
  }

  /** Where a region goes: behind the ones that do not start later. */
  function Slot(regions: seq<Region>, r: Region): (k: nat)
    ensures k <= |regions| && (k < |regions| ==> r.base < regions[k].base)
  {
    if regions == [] || r.base < regions[0].base then 0 else 1 + Slot(regions[1..], r)
  }

  lemma {:induction false} BeforeSlot(regions: seq<Region>, r: Region, i: nat)
    requires i < Slot(regions, r)
    ensures regions[i].base <= r.base
    decreases i
  {
    if i > 0 { BeforeSlot(regions[1..], r, i - 1); }
  }

  lemma {:induction false} InsertAtSlot(regions: seq<Region>, r: Region)
    ensures var k := Slot(regions, r);
      Insert(regions, r) == regions[..k] + [r] + regions[k..]
  {
    if regions == [] || r.base < regions[0].base {
      assert regions[..0] + [r] + regions[0..] == [r] + regions;
    } else {
      InsertAtSlot(regions[1..], r);
      InsertShifts(regions[0], regions[1..], r, Slot(regions[1..], r));
      assert [regions[0]] + regions[1..] == regions;
    }
  }

  lemma InsertSplits(regions: seq<Region>, r: Region) returns (k: nat)
    requires RegionsOk(regions)
    ensures k <= |regions| && Insert(regions, r) == regions[..k] + [r] + regions[k..]
    ensures forall i :: 0 <= i < k ==> regions[i].base <= r.base
    ensures forall i :: k <= i < |regions| ==> r.base < regions[i].base
  {
    hide Insert, Slot;
    k := Slot(regions, r);
    InsertAtSlot(regions, r);
    forall i | 0 <= i < k ensures regions[i].base <= r.base { BeforeSlot(regions, r, i); }
    assert forall i :: k < i < |regions| ==> regions[k].base < regions[i].base;
  }

  lemma InsertOk(regions: seq<Region>, r: Region)
    requires RegionsOk(regions) && Free(regions, r.base, r.size)
    requires r.size > 0 && Aligned(r.base) && Aligned(r.size) && r.End() <= TWO64
    ensures RegionsOk(Insert(regions, r))
  {
    hide Insert, Aligned;
    var k := InsertSplits(regions, r);
    var s := Insert(regions, r);
    forall i, j | 0 <= i < j < |s| ensures s[i].End() <= s[j].base {
      if i == k {
        assert s[j] == regions[j - 1];
        assert !Clash(regions[j - 1], r.base, r.size);
      } else if j == k {
        assert s[i] == regions[i];
        assert !Clash(regions[i], r.base, r.size);
      }
    }
  }

  lemma InsertMembers(regions: seq<Region>, r: Region)
    requires RegionsOk(regions)
    ensures forall x :: x in Insert(regions, r) <==> x == r || x in regions
    ensures forall a: nat :: IsMapped(Insert(regions, r), a) <==> IsMapped(regions, a) || r.base <= a < r.End()
  {
    var k := InsertSplits(regions, r);
    var s := Insert(regions, r);
    hide Insert;
    assert regions == regions[..k] + regions[k..];
    assert forall x :: x in s <==> x == r || x in regions;
    MappedByMember(s);
    MappedByMember(regions);
  }

  lemma MappedByMember(regions: seq<Region>)
    ensures forall a: nat :: IsMapped(regions, a) <==> exists r :: r in regions && r.base <= a < r.End()
  {
    forall a: nat | exists r :: r in regions && r.base <= a < r.End() ensures IsMapped(regions, a) {
      var r :| r in regions && r.base <= a < r.End();
      var i :| 0 <= i < |regions| && regions[i] == r;
    }
  }

  /** Under the invariant the engine accepts a well-formed range exactly when no
      tracked region is in the way. */
  lemma EngineAgrees(m: Mem, base: nat, size: nat)
    requires Inv(m) && Aligned(base) && Aligned(size)
    ensures EngineAccepts(m.pages, base, size) <==>
      size > 0 && base + size <= TWO64 && Free(m.regions, base, size)
  {
    if size > 0 && Free(m.regions, base, size) {
      forall a | a in m.pages ensures !(base <= a < base + size) {
        var i :| 0 <= i < |m.regions| && m.regions[i].base <= a < m.regions[i].End();
        assert !Clash(m.regions[i], base, size);
      }
    }
    if size > 0 && !Free(m.regions, base, size) {
      var i :| 0 <= i < |m.regions| && Clash(m.regions[i], base, size);
      var r := m.regions[i];
      var a := if base < r.base then r.base else base;
      assert Aligned(a) && r.base <= a < r.End();
      assert IsMapped(m.regions, a);
    }
  }

  /** Mapping succeeds exactly for non-empty free ranges inside the address space,
      and then keeps the invariant and adds just that range. */
  lemma AddRegionSpec(m: Mem, r: Region)
    requires Inv(m) && Aligned(r.base) && Aligned(r.size)
    ensures AddRegion(m, r).Ok? <==> r.size > 0 && r.End() <= TWO64 && Free(m.regions, r.base, r.size)
    ensures AddRegion(m, r).Ok? ==> Inv(AddRegion(m, r).value)
  {
    EngineAgrees(m, r.base, r.size);
    if AddRegion(m, r).Ok? {
      InsertOk(m.regions, r);
      InsertMembers(m.regions, r);
      hide Insert, RegionsOk, IsMapped;
    }
  }

  // ----- the first-fit search -----

  /** How many regions still reach beyond `base`. */
  function Ahead(regions: seq<Region>, base: nat): nat {
    if regions == [] then 0 else (if regions[0].End() > base then 1 else 0) + Ahead(regions[1..], base)
  }

  lemma {:induction false} AheadBound(regions: seq<Region>, base: nat)
    ensures Ahead(regions, base) <= |regions|
  {
    if regions != [] { AheadBound(regions[1..], base); }
  }

  lemma {:induction false} AheadMonotone(regions: seq<Region>, base: nat, base': nat)
    requires base <= base'
    ensures Ahead(regions, base') <= Ahead(regions, base)
  {
    if regions != [] { AheadMonotone(regions[1..], base, base'); }
  }

  lemma {:induction false} AheadDrops(regions: seq<Region>, r: Region, base: nat)
    requires r in regions && base < r.End()
    ensures Ahead(regions, r.End()) < Ahead(regions, base)
  {
    if regions[0] == r {
      AheadMonotone(regions[1..], base, r.End());
    } else {
      AheadDrops(regions[1..], r, base);
    }
  }

  ghost predicate LeastFree(regions: seq<Region>, from: nat, size: nat, base: nat) {
    from <= base && Free(regions, base, size) &&
    forall a :: from <= a < base ==> !Free(regions, a, size)
  }

  // Nothing fits between the cursor and the end of a region it clashes with.
  lemma ClashBlocks(regions: seq<Region>, r: Region, base: nat, size: nat, a: nat)
    requires r in regions && Clash(r, base, size) && base <= a < r.End()
    ensures !Free(regions, a, size)
  {
    var i :| 0 <= i < |regions| && regions[i] == r;
    assert Clash(regions[i], a, size);
  }

  /** Each region can get in the way at most once, so as many tries as there are
      regions ahead reach the least address at or above the cursor that fits. */
  lemma {:induction false} ProbeIsFirstFit(regions: seq<Region>, base: nat, size: nat, tries: nat)
    requires Ahead(regions, base) <= tries
    ensures LeastFree(regions, base, size, Probe(regions, base, size, tries))
    decreases tries
  {
    match FirstClash(regions, base, size)
    case None =>
    case Some(r) =>
      AheadDrops(regions, r, base);
      ProbeIsFirstFit(regions, r.End(), size, tries - 1);
      forall a | base <= a < r.End() ensures !Free(regions, a, size) {
        ClashBlocks(regions, r, base, size, a);
      }
  }

  // However few tries there are, the search never skips a gap that fits.
  lemma {:induction false} ProbeSkipsNothing(regions: seq<Region>, base: nat, size: nat, tries: nat)
    ensures base <= Probe(regions, base, size, tries)
    ensures forall a :: base <= a < Probe(regions, base, size, tries) ==> !Free(regions, a, size)
    decreases tries
  {
    if tries > 0 {
      match FirstClash(regions, base, size)
      case None =>
      case Some(r) =>
        ProbeSkipsNothing(regions, r.End(), size, tries - 1);
        forall a | base <= a < r.End() ensures !Free(regions, a, size) {
          ClashBlocks(regions, r, base, size, a);
        }
    }
  }

  lemma AlignedSum(a: nat, b: nat)
    requires Aligned(a) && Aligned(b)
    ensures Aligned(a + b)
  {
  }

  lemma {:induction false} ProbeAligned(regions: seq<Region>, base: nat, size: nat, tries: nat)
    requires RegionsOk(regions) && Aligned(base)
    ensures Aligned(Probe(regions, base, size, tries))
    decreases tries
  {
    hide Aligned;
    if tries > 0 {
      match FirstClash(regions, base, size)
      case None =>
      case Some(r) =>
        AlignedSum(r.base, r.size);
        ProbeAligned(regions, r.End(), size, tries - 1);
    }
  }

  function RequestSize(len: nat): (size: nat)
    ensures Aligned(size) && len <= size && 0 < size < len + 1 + PAGE
  {
    AlignUp(if len > 0 then len else 1)
  }

  function Gap(m: Mem, len: nat): nat {
    hide MaxTries;
    Probe(m.regions, m.mmapNext, RequestSize(len), MaxTries())
  }

  lemma MmapAllocUnfold(m: Mem, len: nat, prot: nat)
    requires len <= TWO32
    ensures MmapAlloc(m, len, prot) ==
      match AddRegion(m, Region(Gap(m, len), RequestSize(len), prot, Mmap))
      case Err => (m, Err)
      case Ok(m') => (m'.(mmapNext := Gap(m, len) + RequestSize(len)), Ok(Gap(m, len)))
  {
    hide MaxTries, Probe, AddRegion;
  }

  lemma GapSpec(m: Mem, len: nat)
    requires Inv(m)
    ensures Aligned(Gap(m, len)) && m.mmapNext <= Gap(m, len)
    ensures Free(m.regions, Gap(m, len), RequestSize(len)) ==>
      LeastFree(m.regions, m.mmapNext, RequestSize(len), Gap(m, len))
    ensures |m.regions| <= MaxTries() ==> Free(m.regions, Gap(m, len), RequestSize(len))
  {
    hide MaxTries, Probe, Free, Aligned;
    var size := RequestSize(len);
    ProbeSkipsNothing(m.regions, m.mmapNext, size, MaxTries());
    ProbeAligned(m.regions, m.mmapNext, size, MaxTries());
    if |m.regions| <= MaxTries() {
      AheadBound(m.regions, m.mmapNext);
      ProbeIsFirstFit(m.regions, m.mmapNext, size, MaxTries());
    }
  }

  /** mmap_alloc: whatever it returns is the least address at or above the cursor
      where the size fits, and the cursor moves behind the new region. */
  lemma MmapAllocIsFirstFit(m: Mem, len: nat, prot: nat)
    requires Inv(m)
    ensures MmapAlloc(m, len, prot).1.Err? ==> MmapAlloc(m, len, prot).0 == m
    ensures var (m', res) := MmapAlloc(m, len, prot);
      res.Ok? ==>
        && len <= TWO32 && Inv(m')
        && LeastFree(m.regions, m.mmapNext, RequestSize(len), res.value)
        && m' == AddRegion(m, Region(res.value, RequestSize(len), prot, Mmap)).value.(mmapNext := m'.mmapNext)
        && m'.mmapNext == res.value + RequestSize(len)
  {
    if len <= TWO32 {
      MmapAllocUnfold(m, len, prot);
      GapSpec(m, len);
      AddRegionSpec(m, Region(Gap(m, len), RequestSize(len), prot, Mmap));
      AlignedSum(Gap(m, len), RequestSize(len));
      hide MmapAlloc, Gap, RequestSize, Free, LeastFree, RegionsOk, Synced, Aligned, AddRegion;
    }
  }

  /** With at most 4096 regions the search never gives up early: a request of sane
      length fails only if even the first gap is too close to the end of the
      address space. */
  lemma MmapAllocSucceeds(m: Mem, len: nat, prot: nat)
    requires Inv(m) && |m.regions| <= 4096 && len <= TWO32
    ensures exists a: nat ::
      && LeastFree(m.regions, m.mmapNext, RequestSize(len), a)
      && MmapAlloc(m, len, prot).1 == (if a + RequestSize(len) <= TWO64 then Ok(a) else Err)
  {
    MmapAllocUnfold(m, len, prot);
    GapSpec(m, len);
    AddRegionSpec(m, Region(Gap(m, len), RequestSize(len), prot, Mmap));
    hide MmapAlloc, Gap, RequestSize, Free, Inv, Aligned, AddRegion;
    assert LeastFree(m.regions, m.mmapNext, RequestSize(len), Gap(m, len));
  }
}

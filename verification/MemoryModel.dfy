// The guest memory manager: a sorted region list, bump cursors and the engine's
// page table. Sums that decide an answer by themselves are made in 64 bits, as in the
// heaps and fixed mappings; the others are mathematical integers, and the engine
// refuses what leaves the address space.

module MemoryModel {
  import opened Common

  const PAGE: int := 0x1000
  const JAVA_BASE: int := 0x3000_0000
  const JAVA_SIZE: int := 0x0400_0000
  const HEAP_BASE: int := 0x4000_0000
  const HEAP_SIZE: int := 0x0800_0000
  const HEAP_EXTENT: int := 0x0400_0000
  const BIG_BASE: int := 0x5400_0000
  const MMAP_BASE: int := 0x7000_0000
  const RW: nat := 3

  datatype Kind = Lib | Heap | Mmap | Java | Other

  datatype Region = Region(base: nat, size: nat, prot: nat, kind: Kind) {
    function End(): nat { base + size }
  }

  datatype Mem = Mem(regions: seq<Region>, pages: map<nat, nat>, libNext: nat, mmapNext: nat, bigNext: nat,
                     heapNext: nat, heapEnd: nat, javaNext: nat, javaEnd: nat)

  /** A manager that has mapped nothing yet. */
  function Fresh(libBase: nat): Mem {
    Mem([], map[], libBase, MMAP_BASE, BIG_BASE, 0, 0, 0, 0)
  }

  predicate Aligned(a: nat) {
    a % PAGE == 0
  }

  function AlignDown(a: nat): (r: nat)
    ensures Aligned(r) && r <= a < r + PAGE
  {
    a - a % PAGE
  }

  function AlignUp(a: nat): (r: nat)
    ensures Aligned(r) && a <= r < a + PAGE
  {
    AlignDown(a + PAGE - 1)
  }

  /** (a + (align - 1)) & ~(align - 1), which rounds up for a power of two. */
  function RoundUp(a: nat, align: nat): (r: nat)
    requires align > 0
    ensures a <= r < a + align
  {
    a + align - 1 - (a + align - 1) % align
  }

  // ----- 64-bit arithmetic -----

  function Add64(a: nat, b: nat): (r: nat)
    ensures r < TWO64
    ensures a + b < TWO64 ==> r == a + b
  {
    (a + b) % TWO64
  }

  function AlignUp64(a: nat): (r: nat)
    ensures Aligned(r) && r < TWO64
    ensures a + PAGE - 1 < TWO64 ==> r == AlignUp(a)
  {
    AlignDown(Add64(a, PAGE - 1))
  }

  function RoundUp64(a: nat, align: nat): (r: nat)
    requires align > 0
    ensures r < TWO64
    ensures a + align - 1 < TWO64 ==> r == RoundUp(a, align)
  {
    Add64(a, align - 1) - Add64(a, align - 1) % align
  }

  predicate PowerOfTwo(n: nat): (b: bool)
    ensures b ==> n > 0
  {
    n == 1 || (n > 1 && n % 2 == 0 && PowerOfTwo(n / 2))
  }

  // ----- the engine -----

  /** uc_mem_map: refuses empty, unaligned, overlapping and out-of-range requests. */
  predicate EngineAccepts(pages: map<nat, nat>, base: nat, size: nat) {
    size > 0 && Aligned(base) && Aligned(size) && base + size <= TWO64 &&
    forall a :: a in pages ==> !(base <= a < base + size)
  }

  function SetPages(pages: map<nat, nat>, base: nat, size: nat, prot: nat): (r: map<nat, nat>)
    ensures forall a: nat :: a in r <==> a in pages || (base <= a < base + size && Aligned(a))
    ensures forall a: nat :: a in r ==> r[a] == if base <= a < base + size && Aligned(a) then prot else pages[a]
  {
    pages + map a: nat | base <= a < base + size && Aligned(a) :: prot
  }

  // ----- regions -----

  predicate Clash(r: Region, base: nat, size: nat) {
    base < r.End() && r.base < base + size
  }

  predicate Free(regions: seq<Region>, base: nat, size: nat) {
    forall i :: 0 <= i < |regions| ==> !Clash(regions[i], base, size)
  }

  predicate IsMapped(regions: seq<Region>, a: nat) {
    exists i :: 0 <= i < |regions| && regions[i].base <= a < regions[i].End()
  }

  /** Insertion at std::upper_bound by base. */
  function Insert(regions: seq<Region>, r: Region): (s: seq<Region>)
    ensures |s| == |regions| + 1
  {
    if regions == [] then [r]
    else if r.base < regions[0].base then [r] + regions
    else [regions[0]] + Insert(regions[1..], r)
  }

  /** Map and track one range: the common tail of every mapping operation. */
  function AddRegion(m: Mem, r: Region): (res: Result<Mem>) {
    if !EngineAccepts(m.pages, r.base, r.size) then Err
    else Ok(m.(pages := SetPages(m.pages, r.base, r.size, r.prot), regions := Insert(m.regions, r)))
  }

  // ----- mapping operations: new state and answer; Err is a C++ exception -----

  /** map_fixed's own test; the end may have wrapped around. */
  predicate Overlaps(regions: seq<Region>, base: nat, end: nat) {
    exists i :: 0 <= i < |regions| && base < regions[i].End() && regions[i].base < end
  }

  function MapFixed(m: Mem, addr: nat, len: nat, prot: nat, kind: Kind): (res: (Mem, Result<nat>)) {
    var base := AlignDown(addr);
    var end := AlignUp64(Add64(addr, len));
    if Overlaps(m.regions, base, end) then (m, Err)
    else match AddRegion(m, Region(base, (end - base) % TWO64, prot, kind))
         case Err => (m, Err)
         case Ok(m') => (m', Ok(base))
  }

  /** The first region, in list order, that stands in the way. */
  function FirstClash(regions: seq<Region>, base: nat, size: nat): (r: Option<Region>)
    ensures r.None? <==> Free(regions, base, size)
    ensures r.Some? ==> r.value in regions && Clash(r.value, base, size)
  {
    if regions == [] then None
    else if Clash(regions[0], base, size) then Some(regions[0])
    else
      var rest := FirstClash(regions[1..], base, size);
      assert regions == [regions[0]] + regions[1..];
      rest
  }

  /** The gap search: jump behind the clashing region, at most `tries` times. */
  function Probe(regions: seq<Region>, base: nat, size: nat, tries: nat): (r: nat)
    decreases tries
  {
    if tries == 0 then base
    else match FirstClash(regions, base, size)
         case None => base
         case Some(r) => Probe(regions, r.End(), size, tries - 1)
  }

  /** The try limit of the gap search. */
  function MaxTries(): nat { 4096 }

  function MmapAlloc(m: Mem, len: nat, prot: nat): (res: (Mem, Result<nat>)) {
    hide MaxTries;
    if len > TWO32 then (m, Err)
    else
      var size := AlignUp(if len > 0 then len else 1);
      var base := Probe(m.regions, m.mmapNext, size, MaxTries());
      match AddRegion(m, Region(base, size, prot, Mmap))
      case Err => (m, Err)
      case Ok(m') => (m'.(mmapNext := base + size), Ok(base))
  }

  function BigAlloc(m: Mem, len: nat, prot: nat): (res: (Mem, Result<nat>)) {
    var size := AlignUp(if len > 0 then len else 1);
    if m.bigNext + size > MMAP_BASE then MmapAlloc(m, len, prot)
    else match AddRegion(m, Region(m.bigNext, size, prot, Mmap))
         case Err => (m, Err)
         case Ok(m') => (m'.(bigNext := m.bigNext + size), Ok(m.bigNext))
  }

  function MapLib(m: Mem, total: nat, prot: nat): (res: (Mem, Result<nat>)) {
    var size := AlignUp(total);
    match AddRegion(m, Region(m.libNext, size, prot, Lib))
    case Err => (m, Err)
    case Ok(m') => (m'.(libNext := m.libNext + size + PAGE), Ok(m.libNext))
  }

  // ----- the bump heaps -----

  function HeapInit(m: Mem): (res: Result<Mem>) {
    if m.heapNext != 0 then Ok(m)
    else match AddRegion(m, Region(HEAP_BASE, HEAP_SIZE, RW, Heap))
         case Err => Err
         case Ok(m') => Ok(m'.(heapNext := HEAP_BASE, heapEnd := HEAP_BASE + HEAP_SIZE))
  }

  /** The cursor behind a block at p: the size class of the length and the guard gap. */
  function Behind(p: nat, len: nat): nat {
    var x := Add64(len, 0x1f);
    Add64(Add64(p, x - x % 0x20), 16)
  }

  function HeapAlloc(m: Mem, len: nat, align: nat): (res: (Mem, Result<nat>))
    requires align > 0
  {
    match HeapInit(m)
    case Err => (m, Err)
    case Ok(m1) =>
      var p := RoundUp64(m1.heapNext, align);
      if Add64(p, len) <= m1.heapEnd then (m1.(heapNext := Behind(p, len)), Ok(p))
      else
        var want := AlignUp64(if len > HEAP_EXTENT then len else HEAP_EXTENT);
        match MmapAlloc(m1, want, RW)
        case (_, Err) => (m1, Ok(0))
        case (m2, Ok(ext)) =>
          if ext == 0 then (m2, Ok(0))
          else
            var m3 := m2.(heapNext := ext, heapEnd := Add64(ext, want));
            var q := RoundUp64(ext, align);
            if Add64(q, len) > m3.heapEnd then (m3, Ok(0))
            else (m3.(heapNext := Behind(q, len)), Ok(q))
  }

  function JavaInit(m: Mem): (res: Result<Mem>) {
    if m.javaNext != 0 then Ok(m)
    else match AddRegion(m, Region(JAVA_BASE, JAVA_SIZE, RW, Java))
         case Err => Err
         case Ok(m') => Ok(m'.(javaNext := JAVA_BASE, javaEnd := JAVA_BASE + JAVA_SIZE))
  }

  function JavaAlloc(m: Mem, len: nat, align: nat): (res: (Mem, Result<nat>))
    requires align > 0
  {
    match JavaInit(m)
    case Err => (m, Err)
    case Ok(m1) =>
      var p := RoundUp64(m1.javaNext, align);
      if Add64(p, len) > m1.javaEnd then (m1, Err) else (m1.(javaNext := Add64(p, len)), Ok(p))
  }

  // ----- protect -----

  predicate HasHole(regions: seq<Region>, p: nat, end: nat)
    decreases end - p
  {
    p < end && (!IsMapped(regions, p) || HasHole(regions, p + PAGE, end))
  }

  /** The page-by-page path: protect mapped pages, map the holes. False when the
      engine refused a page. */
  function FillFrom(m: Mem, p: nat, end: nat, prot: nat): (res: (Mem, bool))
    decreases end - p
  {
    if p >= end then (m, true)
    else if IsMapped(m.regions, p) then
      FillFrom(m.(pages := SetPages(m.pages, p, PAGE, prot)), p + PAGE, end, prot)
    else match MapFixed(m, p, PAGE, if prot != 0 then prot else RW, Other)
         case (_, Err) => (m, false)
         case (m', Ok(_)) => FillFrom(m', p + PAGE, end, prot)
  }

  predicate SameRanges(r: seq<Region>, s: seq<Region>) {
    |r| == |s| && forall i :: 0 <= i < |r| ==> r[i].base == s[i].base && r[i].size == s[i].size
  }

  /** Keep the recorded protection of an exactly matching region accurate. */
  function NoteProt(regions: seq<Region>, base: nat, size: nat, prot: nat): (r: seq<Region>)
    ensures SameRanges(r, regions)
  {
    if regions == [] then []
    else if regions[0].base == base && regions[0].size == size then [regions[0].(prot := prot)] + regions[1..]
    else [regions[0]] + NoteProt(regions[1..], base, size, prot)
  }

  function Protect(m: Mem, addr: nat, len: nat, prot: nat): (res: (Mem, bool)) {
    var base := AlignDown(addr);
    var end := AlignUp(addr + len);
    var done := if HasHole(m.regions, base, end) then FillFrom(m, base, end, prot)
                else (m.(pages := SetPages(m.pages, base, end - base, prot)), true);
    if !done.1 then done
    else (done.0.(regions := NoteProt(done.0.regions, base, end - base, prot)), true)
  }
}

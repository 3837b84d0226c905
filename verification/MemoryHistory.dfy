// Allocation histories: whatever sequence of requests the manager serves, the
// blocks it has handed out are aligned, pairwise disjoint and inside tracked
// regions, and heap blocks of one arena keep a 16-byte gap.

module MemoryHistory {
  import opened Common
  import opened MemoryModel
  import opened MemoryInvariant
  import opened MemoryProtect

  datatype Request =
    | HeapReq(len: nat, align: nat)
    | BigReq(len: nat, prot: nat)
    | MmapReq(len: nat, prot: nat)
    | FixedReq(addr: nat, len: nat, prot: nat, kind: Kind)
    | LibReq(len: nat, prot: nat)
    | JavaReq(len: nat, align: nat)
    | ProtectReq(addr: nat, len: nat, prot: nat)

  predicate Legal(q: Request) {
    match q
    case HeapReq(_, align) => PowerOfTwo(align)
    case JavaReq(_, align) => PowerOfTwo(align)
    case ProtectReq(addr, len, _) => AlignUp(addr + len) <= TWO64
    case _ => true
  }

  /** A request whose sums stay in 64 bits is served as it is meant; requests that leave
      their sums to the engine always are. */
  predicate Served(m: Mem, q: Request)
    requires Legal(q)
  {
    match q
    case HeapReq(len, align) => Fits64(m, len, align)
    case JavaReq(len, align) => JavaFits64(m, len, align)
    case FixedReq(addr, len, _, _) => addr + len <= TWO64
    case _ => true
  }

  function Serve(m: Mem, q: Request): (r: (Mem, Result<nat>))
    requires Legal(q)
  {
    match q
    case HeapReq(len, align) => HeapAlloc(m, len, align)
    case BigReq(len, prot) => BigAlloc(m, len, prot)
    case MmapReq(len, prot) => MmapAlloc(m, len, prot)
    case FixedReq(addr, len, prot, kind) => MapFixed(m, addr, len, prot, kind)
    case LibReq(len, prot) => MapLib(m, len, prot)
    case JavaReq(len, align) => JavaAlloc(m, len, align)
    case ProtectReq(addr, len, prot) =>
      var (m', ok) := Protect(m, addr, len, prot);
      (m', if ok then Ok(0) else Err)
  }

  /** A block handed out, with the alignment promised for it. Heap blocks carry the end
      of the arena they came from. */
  datatype Block = Block(addr: nat, len: nat, arena: Option<nat>, align: nat)

  predicate Disjoint(a: Block, b: Block) {
    a.addr + a.len <= b.addr || b.addr + b.len <= a.addr
  }

  predicate Apart(a: Block, b: Block) {
    Disjoint(a, b) &&
    (a.arena.Some? && a.arena == b.arena ==> a.addr + a.len + 16 <= b.addr || b.addr + b.len + 16 <= a.addr)
  }

  /** What a served request adds to the history: a non-empty block, if it answered one. */
  function Record(q: Request, m': Mem, answer: Result<nat>): (b: seq<Block>) {
    if answer.Err? || q.ProtectReq? || q.len == 0 then []
    else match q
         case HeapReq(len, align) =>
           if answer.value == 0 then [] else [Block(answer.value, len, Some(m'.heapEnd), align)]
         case FixedReq(addr, len, _, _) => [Block(addr, len, None, 1)]
         case JavaReq(len, align) => [Block(answer.value, len, None, align)]
         case _ => [Block(answer.value, q.len, None, PAGE)]
  }

  function History(m: Mem, reqs: seq<Request>): (r: (Mem, seq<Block>))
    requires forall q :: q in reqs ==> Legal(q)
  {
    if reqs == [] then (m, [])
    else
      var n := |reqs| - 1;
      var before := History(m, reqs[..n]);
      var (m', answer) := Serve(before.0, reqs[n]);
      (m', before.1 + Record(reqs[n], m', answer))
  }

  /** No request of the sequence makes a sum that leaves 64 bits. */
  ghost predicate AllServed(m: Mem, reqs: seq<Request>)
    requires forall q :: q in reqs ==> Legal(q)
  {
    forall i :: 0 <= i < |reqs| ==> Served(History(m, reqs[..i]).0, reqs[i])
  }

  // ----- what the history invariant says -----

  ghost predicate RangeIn(regions: seq<Region>, base: nat, size: nat) {
    exists i :: 0 <= i < |regions| && regions[i].base == base && regions[i].size == size
  }

  ghost predicate Inside(regions: seq<Region>, a: nat, n: nat) {
    exists i :: 0 <= i < |regions| && regions[i].base <= a && a + n <= regions[i].End()
  }

  ghost predicate EndsRegion(regions: seq<Region>, e: nat) {
    exists i :: 0 <= i < |regions| && regions[i].End() == e
  }

  ghost predicate BlockOk(m: Mem, b: Block) {
    && b.len > 0 && Inside(m.regions, b.addr, b.len)
    && (0 < m.heapNext < m.heapEnd ==> b.addr + b.len <= m.heapNext || m.heapEnd <= b.addr)
    && (0 < m.javaNext < m.javaEnd ==> b.addr + b.len <= m.javaNext || m.javaEnd <= b.addr)
    && (b.arena.Some? ==> EndsRegion(m.regions, b.arena.value))
    && (b.arena == Some(m.heapEnd) && m.heapNext != 0 ==> b.addr + b.len + 16 <= m.heapNext)
  }

  ghost predicate HeapOk(m: Mem) {
    m.heapNext != 0 ==>
      && m.heapNext >= HEAP_BASE && EndsRegion(m.regions, m.heapEnd)
      && (m.heapNext < m.heapEnd ==> Inside(m.regions, m.heapNext, m.heapEnd - m.heapNext))
  }

  ghost predicate JavaOk(m: Mem) {
    m.javaNext != 0 ==>
      && JAVA_BASE <= m.javaNext <= m.javaEnd == JAVA_BASE + JAVA_SIZE
      && (m.javaNext < m.javaEnd ==> Inside(m.regions, m.javaNext, m.javaEnd - m.javaNext))
  }

  /** What is left of the two arenas does not overlap. */
  ghost predicate ArenasApart(m: Mem) {
    0 < m.heapNext < m.heapEnd && 0 < m.javaNext < m.javaEnd ==> m.heapEnd <= m.javaNext || m.javaEnd <= m.heapNext
  }

  ghost predicate AllApart(blocks: seq<Block>) {
    forall i, j :: 0 <= i < j < |blocks| ==> Apart(blocks[i], blocks[j])
  }

  ghost predicate HistoryInv(m: Mem, blocks: seq<Block>) {
    Inv(m) && HeapOk(m) && JavaOk(m) && ArenasApart(m) && AllApart(blocks) &&
    forall i :: 0 <= i < |blocks| ==> BlockOk(m, blocks[i])
  }

  // ----- regions are only ever added -----

  /** Every tracked range is still tracked. */
  ghost predicate Keeps(r: seq<Region>, r': seq<Region>) {
    forall i :: 0 <= i < |r| ==> RangeIn(r', r[i].base, r[i].size)
  }

  lemma KeepsInside(r: seq<Region>, r': seq<Region>, a: nat, n: nat)
    requires Keeps(r, r') && Inside(r, a, n)
    ensures Inside(r', a, n)
  {
    var i :| 0 <= i < |r| && r[i].base <= a && a + n <= r[i].End();
    var j :| 0 <= j < |r'| && r'[j].base == r[i].base && r'[j].size == r[i].size;
  }

  lemma KeepsEnd(r: seq<Region>, r': seq<Region>, e: nat)
    requires Keeps(r, r') && EndsRegion(r, e)
    ensures EndsRegion(r', e)
  {
    var i :| 0 <= i < |r| && r[i].End() == e;
    var j :| 0 <= j < |r'| && r'[j].base == r[i].base && r'[j].size == r[i].size;
  }

  lemma KeepsTrans(r: seq<Region>, r': seq<Region>, r'': seq<Region>)
    requires Keeps(r, r') && Keeps(r', r'')
    ensures Keeps(r, r'')
  {
    forall i | 0 <= i < |r| ensures RangeIn(r'', r[i].base, r[i].size) {
      var j :| 0 <= j < |r'| && r'[j].base == r[i].base && r'[j].size == r[i].size;
      assert RangeIn(r'', r'[j].base, r'[j].size);
    }
  }

  lemma InsertKeeps(regions: seq<Region>, r: Region)
    requires RegionsOk(regions)
    ensures Keeps(regions, Insert(regions, r))
    ensures RangeIn(Insert(regions, r), r.base, r.size)
  {
    hide Insert, RegionsOk;
    InsertMembers(regions, r);
    var s := Insert(regions, r);
    forall i | 0 <= i < |regions| ensures RangeIn(s, regions[i].base, regions[i].size) {
      assert regions[i] in s;
      var j :| 0 <= j < |s| && s[j] == regions[i];
    }
    assert r in s;
    var j :| 0 <= j < |s| && s[j] == r;
  }

  predicate SameArenas(m: Mem, m': Mem) {
    m'.heapNext == m.heapNext && m'.heapEnd == m.heapEnd && m'.javaNext == m.javaNext && m'.javaEnd == m.javaEnd
  }

  // A state that differs only in regions added elsewhere keeps the history.
  lemma GrowthKeepsHistory(m: Mem, m': Mem, blocks: seq<Block>)
    requires HistoryInv(m, blocks) && Inv(m') && Keeps(m.regions, m'.regions)
    requires SameArenas(m, m')
    ensures HistoryInv(m', blocks)
  {
    hide Inv, Keeps, Inside, EndsRegion, AllApart;
    forall i | 0 <= i < |blocks| ensures BlockOk(m', blocks[i]) {
      var b := blocks[i];
      assert BlockOk(m, b);
      KeepsInside(m.regions, m'.regions, b.addr, b.len);
      if b.arena.Some? { KeepsEnd(m.regions, m'.regions, b.arena.value); }
    }
    if m.heapNext != 0 {
      KeepsEnd(m.regions, m'.regions, m.heapEnd);
      if m.heapNext < m.heapEnd {
        KeepsInside(m.regions, m'.regions, m.heapNext, m.heapEnd - m.heapNext);
      }
    }
    if m.javaNext != 0 && m.javaNext < m.javaEnd {
      KeepsInside(m.regions, m'.regions, m.javaNext, m.javaEnd - m.javaNext);
    }
  }

  // ----- a fresh region is away from everything handed out -----

  lemma FreeMissesInside(regions: seq<Region>, base: nat, size: nat, a: nat, n: nat)
    requires Free(regions, base, size) && Inside(regions, a, n)
    ensures a + n <= base || base + size <= a
  {
    var i :| 0 <= i < |regions| && regions[i].base <= a && a + n <= regions[i].End();
    assert !Clash(regions[i], base, size);
  }

  lemma FreeEndsElsewhere(regions: seq<Region>, base: nat, size: nat, e: nat)
    requires RegionsOk(regions) && Free(regions, base, size) && size > 0 && EndsRegion(regions, e)
    ensures e != base + size
  {
    var i :| 0 <= i < |regions| && regions[i].End() == e;
    assert !Clash(regions[i], base, size);
  }

  // A block that fills (part of) a region just mapped joins the history.
  lemma FreshBlock(m: Mem, blocks: seq<Block>, m': Mem, base: nat, size: nat, a: nat, len: nat, align: nat)
    requires HistoryInv(m, blocks) && HistoryInv(m', blocks)
    requires Free(m.regions, base, size) && 0 < len && base <= a && a + len <= base + size
    requires RangeIn(m'.regions, base, size) && SameArenas(m, m')
    ensures HistoryInv(m', blocks + [Block(a, len, None, align)])
  {
    hide Inv, Free, RangeIn;
    var b := Block(a, len, None, align);
    assert Inside(m'.regions, a, len) by { RangeInside(m'.regions, base, size, a, len); }
    forall i | 0 <= i < |blocks| ensures Apart(blocks[i], b) {
      assert BlockOk(m, blocks[i]);
      FreeMissesInside(m.regions, base, size, blocks[i].addr, blocks[i].len);
    }
    if m.heapNext != 0 && m.heapNext < m.heapEnd {
      FreeMissesInside(m.regions, base, size, m.heapNext, m.heapEnd - m.heapNext);
    }
    if m.javaNext != 0 && m.javaNext < m.javaEnd {
      FreeMissesInside(m.regions, base, size, m.javaNext, m.javaEnd - m.javaNext);
    }
  }

  lemma RangeInside(regions: seq<Region>, base: nat, size: nat, a: nat, n: nat)
    requires RangeIn(regions, base, size) && base <= a && a + n <= base + size
    ensures Inside(regions, a, n)
  {
    var i :| 0 <= i < |regions| && regions[i].base == base && regions[i].size == size;
  }

  // ----- the steps -----

  // Mapping one more region, whatever cursors move, leaves the history intact.
  lemma AddKeepsHistory(m: Mem, r: Region, m': Mem, blocks: seq<Block>)
    requires HistoryInv(m, blocks) && Aligned(r.base) && Aligned(r.size) && AddRegion(m, r).Ok?
    requires m' == AddRegion(m, r).value.(libNext := m'.libNext, mmapNext := m'.mmapNext, bigNext := m'.bigNext)
    requires CursorsOk(m')
    ensures HistoryInv(m', blocks) && Keeps(m.regions, m'.regions) && RangeIn(m'.regions, r.base, r.size)
    ensures Free(m.regions, r.base, r.size) && r.size > 0
  {
    hide Aligned, RegionsOk, Insert, EngineAccepts, SetPages, Free, Keeps, RangeIn, IsMapped, AllApart, BlockOk, HeapOk;
    AddRegionSpec(m, r);
    InsertKeeps(m.regions, r);
    GrowthKeepsHistory(m, m', blocks);
  }

  lemma MmapStep(m: Mem, blocks: seq<Block>, len: nat, prot: nat)
    requires HistoryInv(m, blocks)
    ensures var (m', res) := MmapAlloc(m, len, prot);
      HistoryInv(m', blocks) && SameArenas(m, m') &&
      (res.Ok? ==> Free(m.regions, res.value, RequestSize(len)) && RangeIn(m'.regions, res.value, RequestSize(len)) &&
                   Aligned(res.value) && res.value >= MMAP_BASE && Keeps(m.regions, m'.regions))
  {
    hide Aligned, AddRegion, MmapAlloc, RequestSize, Free, Keeps, RangeIn, AllApart, BlockOk, HeapOk, RegionsOk,
      Synced, LeastFree;
    MmapAllocIsFirstFit(m, len, prot);
    var (m', res) := MmapAlloc(m, len, prot);
    if res.Ok? {
      var r := Region(res.value, RequestSize(len), prot, Mmap);
      MmapResult(m, len, prot);
      AddFrame(m, r);
      AddKeepsHistory(m, r, m', blocks);
    }
  }

  lemma MmapResult(m: Mem, len: nat, prot: nat)
    requires Inv(m) && MmapAlloc(m, len, prot).1.Ok?
    ensures var p := MmapAlloc(m, len, prot).1.value;
      Aligned(p) && p >= MMAP_BASE && AddRegion(m, Region(p, RequestSize(len), prot, Mmap)).Ok? &&
      MmapAlloc(m, len, prot).0 ==
        AddRegion(m, Region(p, RequestSize(len), prot, Mmap)).value.(mmapNext := p + RequestSize(len))
  {
    MmapAllocUnfold(m, len, prot);
    hide MmapAlloc, AddRegion, RequestSize, Aligned, RegionsOk, Synced, Free;
    GapSpec(m, len);
  }

  lemma BigStep(m: Mem, blocks: seq<Block>, len: nat, prot: nat)
    requires HistoryInv(m, blocks)
    ensures var (m', res) := BigAlloc(m, len, prot);
      HistoryInv(m', blocks) && SameArenas(m, m') &&
      (res.Ok? ==> Free(m.regions, res.value, RequestSize(len)) && RangeIn(m'.regions, res.value, RequestSize(len)) &&
                   Aligned(res.value) && Keeps(m.regions, m'.regions))
  {
    hide Aligned, AddRegion, MmapAlloc, AlignUp, Free, Keeps, RangeIn, AllApart, BlockOk, HeapOk, RegionsOk, Synced;
    MmapStep(m, blocks, len, prot);
    var r := Region(m.bigNext, RequestSize(len), prot, Mmap);
    if AddRegion(m, r).Ok? {
      AlignedSum(r.base, r.size);
      AddFrame(m, r);
      AddKeepsHistory(m, r, AddRegion(m, r).value.(bigNext := r.End()), blocks);
    }
  }

  lemma AddFrame(m: Mem, r: Region)
    requires AddRegion(m, r).Ok?
    ensures AddRegion(m, r).value == m.(regions := AddRegion(m, r).value.regions, pages := AddRegion(m, r).value.pages)
  {
    hide EngineAccepts, SetPages, Insert;
  }

  lemma FixedStep(m: Mem, blocks: seq<Block>, addr: nat, len: nat, prot: nat, kind: Kind)
    requires HistoryInv(m, blocks)
    ensures var (m', res) := MapFixed(m, addr, len, prot, kind);
      && HistoryInv(m', blocks) && Keeps(m.regions, m'.regions)
      && (addr + len <= TWO64 ==> HistoryInv(m', blocks + Record(FixedReq(addr, len, prot, kind), m', res)))
  {
    hide Aligned, AddRegion, AlignUp64, Add64, AlignDown, Overlaps, Keeps, RangeIn, AllApart, BlockOk, HeapOk,
      RegionsOk, Synced;
    KeepsSelf(m.regions);
    assert blocks + [] == blocks;
    var base, end := AlignDown(addr), AlignUp64(Add64(addr, len));
    AlignedDifference(base, end);
    var r := Region(base, (end - base) % TWO64, prot, kind);
    if AddRegion(m, r).Ok? {
      var m' := AddRegion(m, r).value;
      AddFrame(m, r);
      AddKeepsHistory(m, r, m', blocks);
      if addr + len <= TWO64 && len > 0 {
        FixedCovers(addr, len);
        FreshBlock(m, blocks, m', base, r.size, addr, len, 1);
      }
    }
  }

  /** The pages of a range that stays in the address space, up to its very end, cover it. */
  lemma FixedCovers(addr: nat, len: nat)
    requires 0 < len && addr + len <= TWO64
    ensures var base, end := AlignDown(addr), AlignUp64(Add64(addr, len));
      (end - base) % TWO64 > 0 ==> addr + len <= base + (end - base) % TWO64
  {
    var base, end := AlignDown(addr), AlignUp64(Add64(addr, len));
    if addr + len == TWO64 {
      assert Add64(addr, len) == 0;
      assert end == 0;
    } else if addr + len + PAGE - 1 < TWO64 {
      assert end == AlignUp(addr + len);
    } else {
      assert Add64(addr + len, PAGE - 1) == addr + len + PAGE - 1 - TWO64;
      assert end == 0;
    }
  }

  lemma KeepsSelf(r: seq<Region>)
    ensures Keeps(r, r)
  {
  }

  lemma AlignedDifference(a: nat, b: nat)
    requires Aligned(a) && Aligned(b)
    ensures Aligned((b - a) % TWO64)
  {
  }

  lemma LibStep(m: Mem, blocks: seq<Block>, len: nat, prot: nat)
    requires HistoryInv(m, blocks)
    ensures var (m', res) := MapLib(m, len, prot);
      HistoryInv(m', blocks + Record(LibReq(len, prot), m', res)) && (res.Ok? ==> Aligned(res.value))
  {
    hide Aligned, AddRegion, AlignUp, Free, Keeps, RangeIn, AllApart, BlockOk, HeapOk, RegionsOk, Synced;
    assert blocks + [] == blocks;
    var r := Region(m.libNext, AlignUp(len), prot, Lib);
    if AddRegion(m, r).Ok? {
      AlignedSum(r.base, r.size);
      AlignedExact(r.End());
      AlignedSum(r.End(), PAGE);
      AddFrame(m, r);
      var m' := AddRegion(m, r).value.(libNext := r.End() + PAGE);
      AddKeepsHistory(m, r, m', blocks);
      if len > 0 { FreshBlock(m, blocks, m', r.base, r.size, r.base, len, PAGE); }
    }
  }

  // ----- the heap in mathematical integers -----

  function ExtentSize(len: nat): nat {
    AlignUp(if len > HEAP_EXTENT then len else HEAP_EXTENT)
  }

  /** Take a block at p and leave the size-class slack and the guard gap behind it. */
  function Bump(m: Mem, p: nat, len: nat): Mem {
    m.(heapNext := p + (len + 0x1f - (len + 0x1f) % 0x20) + 16)
  }

  /** What heap_alloc is meant to do: its steps without the limits of a machine word. */
  function HeapIdeal(m: Mem, len: nat, align: nat): (res: (Mem, Result<nat>))
    requires align > 0
  {
    match HeapInit(m)
    case Err => (m, Err)
    case Ok(m1) =>
      var p := RoundUp(m1.heapNext, align);
      if p + len <= m1.heapEnd then (Bump(m1, p, len), Ok(p))
      else
        var want := ExtentSize(len);
        match MmapAlloc(m1, want, RW)
        case (_, Err) => (m1, Ok(0))
        case (m2, Ok(ext)) =>
          var m3 := m2.(heapNext := ext, heapEnd := ext + want);
          var q := RoundUp(ext, align);
          if q + len > m3.heapEnd then (m3, Ok(0)) else (Bump(m3, q, len), Ok(q))
  }

  /** The sums for a block at cursor a in an arena that ends at `end` stay in 64 bits. */
  predicate SumsFit(a: nat, end: nat, len: nat, align: nat)
    requires align > 0
  {
    var p := RoundUp(a, align);
    a + align <= TWO64 && p + len < TWO64 && (p + len <= end ==> p + len + 0x2f < TWO64)
  }

  /** No sum heap_alloc makes for this request leaves 64 bits. */
  predicate Fits64(m: Mem, len: nat, align: nat)
    requires align > 0
  {
    HeapInit(m).Ok? ==>
      var m1 := HeapInit(m).value;
      var ext, want := MmapAlloc(m1, ExtentSize(len), RW).1, ExtentSize(len);
      && SumsFit(m1.heapNext, m1.heapEnd, len, align)
      && (ext.Ok? ==> ext.value + want < TWO64 && SumsFit(ext.value, ext.value + want, len, align))
  }

  lemma BehindFits(m: Mem, p: nat, len: nat)
    requires p + len < TWO64
    ensures Add64(p, len) == p + len
    ensures p + len + 0x2f < TWO64 ==> m.(heapNext := Behind(p, len)) == Bump(m, p, len)
  {
  }

  /** Where the sums fit, the 64-bit code does what it is meant to do. */
  lemma HeapFits(m: Mem, len: nat, align: nat, blocks: seq<Block>)
    requires HistoryInv(m, blocks) && align > 0 && Fits64(m, len, align)
    ensures HeapAlloc(m, len, align) == HeapIdeal(m, len, align)
  {
    hide HistoryInv, HeapInit, MmapAlloc, RoundUp, RoundUp64, AlignUp, AlignUp64, Add64, Behind, Bump, Aligned;
    HeapInitStep(m, blocks);
    if HeapInit(m).Ok? {
      var m1 := HeapInit(m).value;
      BehindFits(m1, RoundUp(m1.heapNext, align), len);
      ExtendStep(m1, blocks, len);
      var (m2, ext) := MmapAlloc(m1, ExtentSize(len), RW);
      ExtentFits(m1.heapNext, len, align);
      if ext.Ok? {
        BehindFits(m2.(heapNext := ext.value, heapEnd := ext.value + ExtentSize(len)), RoundUp(ext.value, align), len);
      }
    }
  }

  lemma ExtentFits(a: nat, len: nat, align: nat)
    requires align > 0 && a >= HEAP_BASE && RoundUp(a, align) + len < TWO64
    ensures AlignUp64(if len > HEAP_EXTENT then len else HEAP_EXTENT) == ExtentSize(len)
  {
    hide AlignUp64, AlignUp, RoundUp;
  }

  // ----- the heap -----

  // A freshly mapped region becomes the current arena.
  lemma NewArena(m: Mem, blocks: seq<Block>, m': Mem, base: nat, size: nat)
    requires HistoryInv(m, blocks) && HistoryInv(m', blocks)
    requires Free(m.regions, base, size) && size > 0 && RangeIn(m'.regions, base, size) && base >= HEAP_BASE
    ensures HistoryInv(m'.(heapNext := base, heapEnd := base + size), blocks)
  {
    hide Free, RangeIn, AllApart, Aligned, IsMapped;
    var m2 := m'.(heapNext := base, heapEnd := base + size);
    RangeInside(m'.regions, base, size, base, size);
    RangeEnds(m'.regions, base, size);
    forall i | 0 <= i < |blocks| ensures BlockOk(m2, blocks[i]) {
      var b := blocks[i];
      assert BlockOk(m, b) && BlockOk(m', b);
      FreeMissesInside(m.regions, base, size, b.addr, b.len);
      if b.arena.Some? { FreeEndsElsewhere(m.regions, base, size, b.arena.value); }
    }
  }

  lemma RangeEnds(regions: seq<Region>, base: nat, size: nat)
    requires RangeIn(regions, base, size)
    ensures EndsRegion(regions, base + size)
  {
    var i :| 0 <= i < |regions| && regions[i].base == base && regions[i].size == size;
    assert regions[i].End() == base + size;
  }

  lemma SubInside(regions: seq<Region>, a: nat, n: nat, b: nat, k: nat)
    requires Inside(regions, a, n) && a <= b && b + k <= a + n
    ensures Inside(regions, b, k)
  {
    var i :| 0 <= i < |regions| && regions[i].base <= a && a + n <= regions[i].End();
  }

  lemma BumpSize(m: Mem, p: nat, len: nat)
    ensures p + len + 16 <= Bump(m, p, len).heapNext
    ensures Bump(m, p, len) == m.(heapNext := Bump(m, p, len).heapNext)
  {
  }

  // Taking a block from the free end of the current arena.
  lemma TakeBlock(m: Mem, blocks: seq<Block>, p: nat, len: nat, align: nat)
    requires HistoryInv(m, blocks) && HEAP_BASE <= m.heapNext <= p && p + len <= m.heapEnd
    ensures HistoryInv(Bump(m, p, len), blocks)
    ensures len > 0 ==> HistoryInv(Bump(m, p, len), blocks + [Block(p, len, Some(m.heapEnd), align)])
  {
    hide Bump, Inside, EndsRegion, Aligned, IsMapped;
    BumpSize(m, p, len);
    var m' := Bump(m, p, len);
    forall i | 0 <= i < |blocks| ensures BlockOk(m', blocks[i]) {
      assert BlockOk(m, blocks[i]);
    }
    if m'.heapNext < m'.heapEnd {
      SubInside(m.regions, m.heapNext, m.heapEnd - m.heapNext, m'.heapNext, m'.heapEnd - m'.heapNext);
    }
    if len > 0 {
      SubInside(m.regions, m.heapNext, m.heapEnd - m.heapNext, p, len);
      var b := Block(p, len, Some(m.heapEnd), align);
      assert BlockOk(m', b);
      forall i | 0 <= i < |blocks| ensures Apart(blocks[i], b) {
        assert BlockOk(m, blocks[i]);
      }
    }
  }

  lemma HeapStarts(m: Mem, blocks: seq<Block>)
    requires HistoryInv(m, blocks) && m.heapNext != 0
    ensures m.heapNext >= HEAP_BASE
  {
  }

  lemma HeapInitStep(m: Mem, blocks: seq<Block>)
    requires HistoryInv(m, blocks)
    ensures HeapInit(m).Ok? ==> HistoryInv(HeapInit(m).value, blocks) && HeapInit(m).value.heapNext >= HEAP_BASE
  {
    hide AddRegion, Free, Keeps, RangeIn, AllApart, BlockOk, HeapOk, RegionsOk, Synced;
    var r := Region(HEAP_BASE, HEAP_SIZE, RW, Heap);
    if m.heapNext == 0 && AddRegion(m, r).Ok? {
      AddFrame(m, r);
      AddKeepsHistory(m, r, AddRegion(m, r).value, blocks);
      NewArena(m, blocks, AddRegion(m, r).value, r.base, r.size);
    } else if m.heapNext != 0 {
      HeapStarts(m, blocks);
    }
  }

  // The arena that an extension makes current.
  lemma ExtendStep(m: Mem, blocks: seq<Block>, len: nat)
    requires HistoryInv(m, blocks)
    ensures var (m2, res) := MmapAlloc(m, ExtentSize(len), RW);
      res.Ok? ==> res.value >= HEAP_BASE && Aligned(res.value) &&
                  HistoryInv(m2.(heapNext := res.value, heapEnd := res.value + ExtentSize(len)), blocks)
  {
    hide HistoryInv, MmapAlloc, Free, RangeIn, Aligned, Keeps;
    MmapStep(m, blocks, ExtentSize(len), RW);
    ExtentExact(len);
    var (m2, res) := MmapAlloc(m, ExtentSize(len), RW);
    if res.Ok? {
      NewArena(m, blocks, m2, res.value, ExtentSize(len));
    }
  }

  lemma ExtentExact(len: nat)
    ensures RequestSize(ExtentSize(len)) == ExtentSize(len) > 0
    ensures len <= ExtentSize(len)
  {
  }

  lemma HeapStep(m: Mem, blocks: seq<Block>, len: nat, align: nat)
    requires HistoryInv(m, blocks) && align > 0
    ensures var (m', res) := HeapIdeal(m, len, align);
      HistoryInv(m', blocks + Record(HeapReq(len, align), m', res))
  {
    hide HistoryInv, HeapInit, MmapAlloc, RoundUp, Bump, ExtentSize, Aligned;
    assert blocks + [] == blocks;
    HeapInitStep(m, blocks);
    if HeapInit(m).Ok? {
      var m1 := HeapInit(m).value;
      var p := RoundUp(m1.heapNext, align);
      if p + len <= m1.heapEnd {
        TakeBlock(m1, blocks, p, len, align);
        BumpSize(m1, p, len);
      } else {
        ExtendStep(m1, blocks, len);
        var (m2, ext) := MmapAlloc(m1, ExtentSize(len), RW);
        if ext.Ok? {
          var m3 := m2.(heapNext := ext.value, heapEnd := ext.value + ExtentSize(len));
          var q := RoundUp(ext.value, align);
          if q + len <= m3.heapEnd {
            TakeBlock(m3, blocks, q, len, align);
            BumpSize(m3, q, len);
          }
        }
      }
    }
  }

  // ----- the Java region -----

  /** No sum java_alloc makes for this request leaves 64 bits. */
  predicate JavaFits64(m: Mem, len: nat, align: nat)
    requires align > 0
  {
    JavaInit(m).Ok? ==>
      var next := JavaInit(m).value.javaNext;
      next + align <= TWO64 && RoundUp(next, align) + len < TWO64
  }

  lemma NewJava(m: Mem, blocks: seq<Block>, m': Mem)
    requires HistoryInv(m, blocks) && HistoryInv(m', blocks) && SameArenas(m, m')
    requires Free(m.regions, JAVA_BASE, JAVA_SIZE) && RangeIn(m'.regions, JAVA_BASE, JAVA_SIZE)
    ensures HistoryInv(m'.(javaNext := JAVA_BASE, javaEnd := JAVA_BASE + JAVA_SIZE), blocks)
  {
    hide Free, RangeIn, AllApart, Aligned, IsMapped, Inside, EndsRegion;
    var m2 := m'.(javaNext := JAVA_BASE, javaEnd := JAVA_BASE + JAVA_SIZE);
    RangeInside(m'.regions, JAVA_BASE, JAVA_SIZE, JAVA_BASE, JAVA_SIZE);
    forall i | 0 <= i < |blocks| ensures BlockOk(m2, blocks[i]) {
      assert BlockOk(m, blocks[i]) && BlockOk(m', blocks[i]);
      FreeMissesInside(m.regions, JAVA_BASE, JAVA_SIZE, blocks[i].addr, blocks[i].len);
    }
    if m.heapNext != 0 && m.heapNext < m.heapEnd {
      FreeMissesInside(m.regions, JAVA_BASE, JAVA_SIZE, m.heapNext, m.heapEnd - m.heapNext);
    }
  }

  lemma JavaInitStep(m: Mem, blocks: seq<Block>)
    requires HistoryInv(m, blocks)
    ensures JavaInit(m).Ok? ==> HistoryInv(JavaInit(m).value, blocks) && JavaInit(m).value.javaNext != 0
  {
    hide AddRegion, Free, Keeps, RangeIn, AllApart, BlockOk, HeapOk, JavaOk, ArenasApart, RegionsOk, Synced;
    var r := Region(JAVA_BASE, JAVA_SIZE, RW, Java);
    if m.javaNext == 0 && AddRegion(m, r).Ok? {
      AddFrame(m, r);
      AddKeepsHistory(m, r, AddRegion(m, r).value, blocks);
      NewJava(m, blocks, AddRegion(m, r).value);
    }
  }

  // Taking a block from the free end of the Java region.
  lemma TakeJava(m: Mem, blocks: seq<Block>, p: nat, len: nat, align: nat)
    requires HistoryInv(m, blocks) && 0 < m.javaNext <= p && p + len <= m.javaEnd
    ensures HistoryInv(m.(javaNext := p + len), blocks)
    ensures len > 0 ==> HistoryInv(m.(javaNext := p + len), blocks + [Block(p, len, None, align)])
  {
    hide Inside, EndsRegion, Aligned, IsMapped;
    var m' := m.(javaNext := p + len);
    forall i | 0 <= i < |blocks| ensures BlockOk(m', blocks[i]) {
      assert BlockOk(m, blocks[i]);
    }
    if m'.javaNext < m'.javaEnd {
      SubInside(m.regions, m.javaNext, m.javaEnd - m.javaNext, p + len, m.javaEnd - (p + len));
    }
    if len > 0 {
      SubInside(m.regions, m.javaNext, m.javaEnd - m.javaNext, p, len);
      var b := Block(p, len, None, align);
      assert BlockOk(m', b);
      forall i | 0 <= i < |blocks| ensures Apart(blocks[i], b) {
        assert BlockOk(m, blocks[i]);
      }
    }
  }

  lemma JavaStep(m: Mem, blocks: seq<Block>, len: nat, align: nat)
    requires HistoryInv(m, blocks) && align > 0 && JavaFits64(m, len, align)
    ensures var (m', res) := JavaAlloc(m, len, align);
      && HistoryInv(m', blocks + Record(JavaReq(len, align), m', res))
      && (res.Ok? ==> JavaInit(m).Ok? && res.value == RoundUp(JavaInit(m).value.javaNext, align))
  {
    hide HistoryInv, JavaInit, RoundUp, RoundUp64, Add64;
    assert blocks + [] == blocks;
    JavaInitStep(m, blocks);
    if JavaInit(m).Ok? {
      var m1 := JavaInit(m).value;
      var p := RoundUp(m1.javaNext, align);
      if p + len <= m1.javaEnd { TakeJava(m1, blocks, p, len, align); }
    }
  }

  // ----- protect -----

  lemma {:induction false} FillKeeps(m: Mem, p: nat, end: nat, prot: nat)
    requires Inv(m) && Aligned(p) && Aligned(end) && p <= end <= TWO64
    ensures var m' := FillFrom(m, p, end, prot).0;
      Keeps(m.regions, m'.regions) && SameArenas(m, m')
    decreases end - p
  {
    hide Inv, Aligned, IsMapped, SetPages, MapFixed, Keeps;
    KeepsSelf(m.regions);
    if p < end {
      AlignedGap(p, end);
      if IsMapped(m.regions, p) {
        ProtectPage(m, p, prot);
        FillKeeps(m.(pages := SetPages(m.pages, p, PAGE, prot)), p + PAGE, end, prot);
      } else {
        var prot' := if prot != 0 then prot else RW;
        FillPage(m, p, prot);
        MapOnePage(m, p, prot');
        var m1 := MapFixed(m, p, PAGE, prot', Other).0;
        AddFrame(m, Region(p, PAGE, prot', Other));
        AddKeeps(m, Region(p, PAGE, prot', Other));
        FillKeeps(m1, p + PAGE, end, prot);
        KeepsTrans(m.regions, m1.regions, FillFrom(m1, p + PAGE, end, prot).0.regions);
      }
    }
  }

  lemma AddKeeps(m: Mem, r: Region)
    requires Inv(m) && AddRegion(m, r).Ok?
    ensures Keeps(m.regions, AddRegion(m, r).value.regions)
  {
    hide Insert, EngineAccepts, SetPages, Keeps, RegionsOk;
    InsertKeeps(m.regions, r);
  }

  lemma SameRangesKeeps(r: seq<Region>, s: seq<Region>)
    requires SameRanges(r, s)
    ensures Keeps(s, r)
  {
    forall i | 0 <= i < |s| ensures RangeIn(r, s[i].base, s[i].size) {
      assert r[i].base == s[i].base && r[i].size == s[i].size;
    }
  }

  lemma ProtectStep(m: Mem, blocks: seq<Block>, addr: nat, len: nat, prot: nat)
    requires HistoryInv(m, blocks) && AlignUp(addr + len) <= TWO64
    ensures HistoryInv(Protect(m, addr, len, prot).0, blocks)
  {
    hide Inv, HasHole, FillFrom, NoteProt, SetPages, PagesProtected, AlignUp, AlignDown, Aligned, Keeps, SameRanges,
      BlockOk, HeapOk, AllApart;
    ProtectSpec(m, addr, len, prot);
    var base, end := AlignDown(addr), AlignUp(addr + len);
    FillKeeps(m, base, end, prot);
    KeepsSelf(m.regions);
    var m1 := if HasHole(m.regions, base, end) then FillFrom(m, base, end, prot).0
              else m.(pages := SetPages(m.pages, base, end - base, prot));
    FillSpec(m, base, end, prot);
    SameRangesKeeps(NoteProt(m1.regions, base, end - base, prot), m1.regions);
    KeepsTrans(m.regions, m1.regions, NoteProt(m1.regions, base, end - base, prot));
    GrowthKeepsHistory(m, Protect(m, addr, len, prot).0, blocks);
  }

  // ----- whole histories -----

  lemma ServeStep(m: Mem, blocks: seq<Block>, q: Request)
    requires HistoryInv(m, blocks) && Legal(q) && Served(m, q)
    ensures var (m', res) := Serve(m, q);
      HistoryInv(m', blocks + Record(q, m', res))
  {
    hide HistoryInv, HeapAlloc, BigAlloc, MmapAlloc, MapFixed, MapLib, JavaAlloc, Protect, Aligned, Free, RangeIn,
      Keeps, Fits64, HeapIdeal, PowerOfTwo;
    assert blocks + [] == blocks;
    var (m', res) := Serve(m, q);
    match q
    case HeapReq(len, align) =>
      HeapFits(m, len, align, blocks);
      HeapStep(m, blocks, len, align);
    case BigReq(len, prot) =>
      BigStep(m, blocks, len, prot);
      if res.Ok? && len > 0 { FreshBlock(m, blocks, m', res.value, RequestSize(len), res.value, len, PAGE); }
    case MmapReq(len, prot) =>
      MmapStep(m, blocks, len, prot);
      if res.Ok? && len > 0 { FreshBlock(m, blocks, m', res.value, RequestSize(len), res.value, len, PAGE); }
    case FixedReq(addr, len, prot, kind) => FixedStep(m, blocks, addr, len, prot, kind);
    case LibReq(len, prot) => LibStep(m, blocks, len, prot);
    case JavaReq(len, align) => JavaStep(m, blocks, len, align);
    case ProtectReq(addr, len, prot) => ProtectStep(m, blocks, addr, len, prot);
  }

  lemma AllServedPrefix(m: Mem, reqs: seq<Request>, n: nat)
    requires (forall q :: q in reqs ==> Legal(q)) && AllServed(m, reqs) && n <= |reqs|
    ensures AllServed(m, reqs[..n])
  {
    hide Served, Legal, History;
    forall i | 0 <= i < n ensures Served(History(m, reqs[..n][..i]).0, reqs[..n][i]) {
      assert reqs[..n][..i] == reqs[..i];
    }
  }

  lemma {:induction false} HistoryHolds(m: Mem, reqs: seq<Request>)
    requires HistoryInv(m, []) && (forall q :: q in reqs ==> Legal(q)) && AllServed(m, reqs)
    ensures HistoryInv(History(m, reqs).0, History(m, reqs).1)
  {
    hide HistoryInv, Serve, Legal, Record, Served;
    if reqs != [] {
      var n := |reqs| - 1;
      AllServedPrefix(m, reqs, n);
      HistoryHolds(m, reqs[..n]);
      ServeStep(History(m, reqs[..n]).0, History(m, reqs[..n]).1, reqs[n]);
    }
  }

  // ----- alignment and the null answer -----

  ghost predicate IsTimes(r: nat, q: nat, d: nat) {
    r == q * d
  }

  ghost predicate Multiple(r: nat, d: nat) {
    exists q: nat :: IsTimes(r, q, d)
  }

  lemma RoundUpMultiple(a: nat, align: nat)
    requires align > 0
    ensures IsTimes(RoundUp(a, align), (a + align - 1) / align, align)
  {
  }

  lemma TimesClose(q: nat, q': nat, d: nat)
    requires q * d <= q' * d < q * d + d
    ensures q == q'
  {
    if q' < q {
      TimesFar(q', q, d);
    } else if q < q' {
      TimesFar(q, q', d);
    }
  }

  lemma PowersUpToPage(n: nat)
    requires PowerOfTwo(n) && n <= PAGE
    ensures n in {1, 2, 4, 8, 16, 32, 64, 128, 256, 512, 1024, 2048, 4096}
  {
    if n > 1 {
      PowersUpToPage(n / 2);
      assert n == 2 * (n / 2);
    }
  }

  lemma PageFactor(n: nat) returns (c: nat)
    requires n in {1, 2, 4, 8, 16, 32, 64, 128, 256, 512, 1024, 2048, 4096}
    ensures c * n == PAGE
  {
    c := PAGE / n;
  }

  lemma AlignedTimes(a: nat, c: nat, n: nat)
    requires Aligned(a) && c * n == PAGE
    ensures a == (a / PAGE * c) * n
  {
    var k := a / PAGE;
    assert a == k * PAGE;
    assert k * (c * n) == (k * c) * n;
  }

  lemma PageIsMultiple(a: nat, n: nat)
    requires Aligned(a) && PowerOfTwo(n) && n <= PAGE
    ensures RoundUp(a, n) == a
  {
    hide RoundUp, Aligned;
    PowersUpToPage(n);
    hide PowerOfTwo;
    var c := PageFactor(n);
    AlignedTimes(a, c, n);
    RoundUpMultiple(a, n);
    TimesClose(a / PAGE * c, (a + n - 1) / n, n);
  }

  /** Where its sums fit, heap_alloc answers a multiple of the alignment, and for
      alignments up to a page it answers null exactly when the current arena is too small
      and the extension could not be mapped. */
  lemma HeapNullIffExtensionFails(m: Mem, blocks: seq<Block>, len: nat, align: nat)
    requires HistoryInv(m, blocks) && PowerOfTwo(align)
    requires HeapInit(m).Ok? && Fits64(m, len, align)
    ensures var (m', res) := HeapAlloc(m, len, align);
      && res.Ok? && Multiple(res.value, align)
      && (align <= PAGE ==>
            (res.value == 0 <==>
              RoundUp(HeapInit(m).value.heapNext, align) + len > HeapInit(m).value.heapEnd &&
              MmapAlloc(HeapInit(m).value, ExtentSize(len), RW).1.Err?))
  {
    hide HistoryInv, HeapInit, MmapAlloc, RoundUp, Bump, ExtentSize, Aligned, PowerOfTwo, HeapAlloc, Fits64;
    HeapInitStep(m, blocks);
    var m1 := HeapInit(m).value;
    HeapFits(m, len, align, blocks);
    RoundUpMultiple(m1.heapNext, align);
    assert IsTimes(0, 0, align);
    ExtendStep(m1, blocks, len);
    ExtentExact(len);
    var (m2, ext) := MmapAlloc(m1, ExtentSize(len), RW);
    if ext.Ok? {
      RoundUpMultiple(ext.value, align);
      if align <= PAGE { PageIsMultiple(ext.value, align); }
    }
  }

  // ----- the theorem -----

  ghost predicate AllAligned(blocks: seq<Block>) {
    forall i :: 0 <= i < |blocks| ==> Multiple(blocks[i].addr, blocks[i].align)
  }

  lemma PageMultiple(a: nat)
    requires Aligned(a)
    ensures Multiple(a, PAGE)
  {
    assert IsTimes(a, a / PAGE, PAGE);
  }

  lemma AnyMultiple(a: nat)
    ensures Multiple(a, 1)
  {
    assert IsTimes(a, a, 1);
  }

  lemma RoundUpIsMultiple(a: nat, align: nat)
    requires align > 0
    ensures Multiple(RoundUp(a, align), align)
  {
    RoundUpMultiple(a, align);
  }

  lemma ServeAligned(m: Mem, blocks: seq<Block>, q: Request)
    requires HistoryInv(m, blocks) && Legal(q) && Served(m, q)
    ensures var (m', res) := Serve(m, q);
      AllAligned(Record(q, m', res))
  {
    hide HistoryInv, HeapInit, BigAlloc, MmapAlloc, MapFixed, MapLib, JavaAlloc, Protect, Aligned, Free, RangeIn, Keeps,
      Multiple, RoundUp, Bump, ExtentSize, PowerOfTwo, HeapAlloc, Fits64, JavaInit, JavaFits64;
    var (m', res) := Serve(m, q);
    match q
    case HeapReq(len, align) =>
      if HeapInit(m).Ok? { HeapNullIffExtensionFails(m, blocks, len, align); } else { NoArena(m, len, align); }
    case BigReq(len, prot) =>
      BigStep(m, blocks, len, prot);
      if res.Ok? { PageMultiple(res.value); }
    case LibReq(len, prot) =>
      LibStep(m, blocks, len, prot);
      if res.Ok? { PageMultiple(res.value); }
    case FixedReq(addr, len, prot, kind) => AnyMultiple(addr);
    case JavaReq(len, align) =>
      JavaStep(m, blocks, len, align);
      if res.Ok? { RoundUpIsMultiple(JavaInit(m).value.javaNext, align); }
    case MmapReq(len, prot) =>
      MmapStep(m, blocks, len, prot);
      if res.Ok? { PageMultiple(res.value); }
    case _ =>
  }

  lemma NoArena(m: Mem, len: nat, align: nat)
    requires HeapInit(m).Err? && align > 0
    ensures HeapAlloc(m, len, align) == (m, Err)
  {
  }

  lemma {:induction false} HistoryAligned(m: Mem, reqs: seq<Request>)
    requires HistoryInv(m, []) && (forall q :: q in reqs ==> Legal(q)) && AllServed(m, reqs)
    ensures AllAligned(History(m, reqs).1)
  {
    hide HistoryInv, Serve, Legal, Record, Multiple, Served;
    if reqs != [] {
      var n := |reqs| - 1;
      AllServedPrefix(m, reqs, n);
      HistoryAligned(m, reqs[..n]);
      HistoryHolds(m, reqs[..n]);
      ServeAligned(History(m, reqs[..n]).0, History(m, reqs[..n]).1, reqs[n]);
    }
  }

  /** The allocator theorem. From a fresh manager, after any sequence of requests,
      the blocks handed out are pairwise disjoint (16 bytes apart within an arena),
      each is aligned as promised and lies inside a tracked region, and the region
      map is still exact. */
  lemma AllocationHistory(libBase: nat, reqs: seq<Request>)
    requires Aligned(libBase) && (forall q :: q in reqs ==> Legal(q)) && AllServed(Fresh(libBase), reqs)
    ensures var (m, blocks) := History(Fresh(libBase), reqs);
      && Inv(m)
      && (forall i, j :: 0 <= i < j < |blocks| ==> Apart(blocks[i], blocks[j]))
      && (forall i :: 0 <= i < |blocks| ==> Multiple(blocks[i].addr, blocks[i].align))
      && (forall i :: 0 <= i < |blocks| ==> blocks[i].len > 0 && Inside(m.regions, blocks[i].addr, blocks[i].len))
  {
    hide Serve, Legal, Record, Aligned, Multiple, AllServed;
    FreshInv(libBase);
    HistoryHolds(Fresh(libBase), reqs);
    HistoryAligned(Fresh(libBase), reqs);
    var (m, blocks) := History(Fresh(libBase), reqs);
    forall i | 0 <= i < |blocks| ensures blocks[i].len > 0 && Inside(m.regions, blocks[i].addr, blocks[i].len) {
      assert BlockOk(m, blocks[i]);
    }
  }
}

// Lengths close to 2^64: the heaps add in 64 bits, and a sum that wraps around hands out
// a block that does not exist. Exactly when that happens, and a history in which it does.

module MemoryWrap {
  import opened Common
  import opened MemoryModel
  import opened MemoryInvariant
  import opened MemoryProtect
  import opened MemoryHistory

  const HALF: nat := TWO64 / 2

  /** Everything mapped, and the heap's arena, lies in the lower half of the address
      space, where a process lives. */
  ghost predicate Low(m: Mem) {
    && (forall i :: 0 <= i < |m.regions| ==> m.regions[i].End() <= HALF)
    && m.heapNext <= HALF && m.heapEnd <= HALF
  }

  /** So does whatever an extension of this size would map. */
  ghost predicate LowExtension(m: Mem, want: nat) {
    var ext := MmapAlloc(m, want, RW).1;
    ext.Ok? ==> ext.value + RequestSize(want) <= HALF
  }

  /** When heap_alloc may be asked: the aligned cursor plus the length stays in 64 bits, or
      wraps to a sum that is refused all the same. The second case needs a cursor behind
      the end of the arena, and a length that page rounding does not turn into 0. */
  predicate Sound(m: Mem, len: nat, align: nat)
    requires align > 0
  {
    var sum := RoundUp(m.heapNext, align) + len;
    || sum < TWO64
    || (sum - TWO64 > m.heapEnd && (len <= TWO64 - PAGE || MmapAlloc(m, 0, RW).1.Err?))
  }

  // ----- sums that fit -----

  lemma SoundFits(m: Mem, len: nat, align: nat)
    requires HeapInit(m).Ok? && 0 < align <= PAGE
    requires var m1 := HeapInit(m).value;
      Low(m1) && LowExtension(m1, ExtentSize(len)) && RoundUp(m1.heapNext, align) + len < TWO64
    ensures Fits64(m, len, align)
  {
    hide HeapInit, MmapAlloc, RoundUp;
    ExtentExact(len);
  }

  // ----- sums that wrap and are refused -----

  lemma HugeIsRefused(m: Mem, want: nat)
    requires want > TWO32
    ensures MmapAlloc(m, want, RW) == (m, Err)
  {
    hide MaxTries;
  }

  lemma WrappedSum(a: nat, b: nat)
    requires TWO64 <= a + b < 2 * TWO64
    ensures Add64(a, b) == a + b - TWO64
  {
  }

  lemma RefusedAnyway(m: Mem, len: nat, align: nat)
    requires HeapInit(m).Ok? && 0 < align <= PAGE && len < TWO64
    requires var m1 := HeapInit(m).value;
      && Low(m1) && Sound(m1, len, align) && RoundUp(m1.heapNext, align) + len >= TWO64
    ensures HeapAlloc(m, len, align) == (HeapInit(m).value, Ok(0))
  {
    hide HeapInit, MmapAlloc, RoundUp, RoundUp64, Add64, AlignUp64, AlignUp, Behind;
    var m1 := HeapInit(m).value;
    var p := RoundUp(m1.heapNext, align);
    WrappedSum(p, len);
    assert RoundUp64(m1.heapNext, align) == p;
    if len <= TWO64 - PAGE {
      HugeIsRefused(m1, AlignUp64(len));
    } else {
      RoundsToZero(len);
    }
  }

  lemma RoundsToZero(len: nat)
    requires TWO64 - PAGE < len < TWO64
    ensures AlignUp64(len) == 0
  {
    WrappedSum(len, PAGE - 1);
  }

  // ----- sums that wrap and are answered -----

  lemma TooLong(regions: seq<Region>, a: nat, n: nat)
    requires (forall i :: 0 <= i < |regions| ==> regions[i].End() <= HALF) && a + n > HALF
    ensures !Inside(regions, a, n)
  {
  }

  lemma NoSuchBlock(m: Mem, blocks: seq<Block>, b: Block)
    requires (forall i :: 0 <= i < |m.regions| ==> m.regions[i].End() <= HALF) && b.addr + b.len > HALF
    ensures !HistoryInv(m, blocks + [b])
  {
    TooLong(m.regions, b.addr, b.len);
    assert !BlockOk(m, (blocks + [b])[|blocks|]);
  }

  lemma AnsweredInArena(m: Mem, blocks: seq<Block>, len: nat, align: nat)
    requires HistoryInv(m, blocks) && HeapInit(m).Ok? && 0 < align <= PAGE && len < TWO64
    requires var m1 := HeapInit(m).value;
      && Low(m1) && m1.heapNext >= HEAP_BASE
      && TWO64 <= RoundUp(m1.heapNext, align) + len <= TWO64 + m1.heapEnd
    ensures var (m', res) := HeapAlloc(m, len, align);
      && res == Ok(RoundUp(HeapInit(m).value.heapNext, align))
      && !HistoryInv(m', blocks + Record(HeapReq(len, align), m', res))
  {
    hide HeapInit, MmapAlloc, RoundUp, RoundUp64, Add64, AlignUp64, AlignUp, Behind, HistoryInv;
    var m1 := HeapInit(m).value;
    var p := RoundUp(m1.heapNext, align);
    WrappedSum(p, len);
    var m' := m1.(heapNext := Behind(p, len));
    assert HeapAlloc(m, len, align) == (m', Ok(p));
    NoSuchBlock(m', blocks, Block(p, len, Some(m'.heapEnd), align));
  }

  lemma LowAfterMap(m: Mem, len: nat)
    requires Inv(m) && Low(m) && LowExtension(m, len) && MmapAlloc(m, len, RW).1.Ok?
    ensures var m2 := MmapAlloc(m, len, RW).0;
      forall i :: 0 <= i < |m2.regions| ==> m2.regions[i].End() <= HALF
  {
    hide MmapAlloc, RequestSize, Aligned, Synced, CursorsOk, RegionsOk;
    MmapResult(m, len, RW);
    var (m2, ext) := MmapAlloc(m, len, RW);
    var r := Region(ext.value, RequestSize(len), RW, Mmap);
    InsertMembers(m.regions, r);
    assert m2.regions == Insert(m.regions, r);
    forall i | 0 <= i < |m2.regions| ensures m2.regions[i].End() <= HALF {
      assert m2.regions[i] in m2.regions;
      if m2.regions[i] != r { var j :| 0 <= j < |m.regions| && m.regions[j] == m2.regions[i]; }
    }
  }

  lemma AnsweredInPage(m: Mem, blocks: seq<Block>, len: nat, align: nat)
    requires HistoryInv(m, blocks) && HeapInit(m).Ok? && PowerOfTwo(align) && align <= PAGE
    requires TWO64 - PAGE < len < TWO64
    requires var m1 := HeapInit(m).value;
      && Low(m1) && LowExtension(m1, 0) && HistoryInv(m1, blocks) && MmapAlloc(m1, 0, RW).1.Ok?
      && RoundUp(m1.heapNext, align) + len > TWO64 + m1.heapEnd
    ensures var (m', res) := HeapAlloc(m, len, align);
      !HistoryInv(m', blocks + Record(HeapReq(len, align), m', res))
  {
    hide HeapInit, MmapAlloc, RoundUp, RoundUp64, Add64, AlignUp64, AlignUp, Behind, RequestSize, PowerOfTwo, Aligned,
      Inv, BlockOk, HeapOk, AllApart;
    var m1 := HeapInit(m).value;
    var p := RoundUp(m1.heapNext, align);
    WrappedSum(p, len);
    assert RoundUp64(m1.heapNext, align) == p;
    RoundsToZero(len);
    LowAfterMap(m1, 0);
    MmapResult(m1, 0, RW);
    var (m2, ext) := MmapAlloc(m1, 0, RW);
    PageIsMultiple(ext.value, align);
    PositiveRequest(0);
    WrappedSum(ext.value, len);
    var m' := m2.(heapNext := Behind(ext.value, len), heapEnd := ext.value);
    assert Add64(ext.value, 0) == ext.value;
    assert HeapAlloc(m, len, align) == (m', Ok(ext.value));
    hide HistoryInv;
    NoSuchBlock(m', blocks, Block(ext.value, len, Some(m'.heapEnd), align));
  }

  lemma PositiveRequest(len: nat)
    ensures RequestSize(len) > 0
  {
  }

  /** Exactly when a heap request keeps the history: for alignments up to a page and
      memory in the lower half, it does if and only if the request is sound. */
  lemma HeapKeepsHistoryIff(m: Mem, blocks: seq<Block>, len: nat, align: nat)
    requires HistoryInv(m, blocks) && HeapInit(m).Ok? && PowerOfTwo(align) && align <= PAGE && 0 < len < TWO64
    requires var m1 := HeapInit(m).value;
      Low(m1) && LowExtension(m1, ExtentSize(len)) && LowExtension(m1, 0)
    ensures var (m', res) := HeapAlloc(m, len, align);
      HistoryInv(m', blocks + Record(HeapReq(len, align), m', res)) <==> Sound(HeapInit(m).value, len, align)
  {
    hide HistoryInv, HeapInit, MmapAlloc, RoundUp, HeapAlloc, HeapIdeal, Fits64, Low, LowExtension, PowerOfTwo,
      ExtentSize;
    var m1 := HeapInit(m).value;
    HeapInitStep(m, blocks);
    assert blocks + [] == blocks;
    if RoundUp(m1.heapNext, align) + len < TWO64 {
      SoundFits(m, len, align);
      HeapFits(m, len, align, blocks);
      HeapStep(m, blocks, len, align);
    } else if Sound(m1, len, align) {
      RefusedAnyway(m, len, align);
    } else if RoundUp(m1.heapNext, align) + len <= TWO64 + m1.heapEnd {
      AnsweredInArena(m, blocks, len, align);
    } else {
      AnsweredInPage(m, blocks, len, align);
    }
  }

  // ----- a history that goes wrong -----

  const FIRST := HeapReq(0xfd0, 16)
  const WRAPPING := HeapReq(TWO64 - 0xff0, 16)
  const THIRD := HeapReq(16, 16)

  /** The manager once its arena is mapped, with this cursor. */
  function Arena(libBase: nat, next: nat): Mem {
    var r := Region(HEAP_BASE, HEAP_SIZE, RW, Heap);
    Mem([r], SetPages(map[], HEAP_BASE, HEAP_SIZE, RW), libBase, MMAP_BASE, BIG_BASE, next, HEAP_BASE + HEAP_SIZE, 0, 0)
  }

  lemma ArenaMapped(libBase: nat)
    ensures HeapInit(Fresh(libBase)) == Ok(Arena(libBase, HEAP_BASE))
  {
    hide SetPages;
    assert Insert([], Region(HEAP_BASE, HEAP_SIZE, RW, Heap)) == [Region(HEAP_BASE, HEAP_SIZE, RW, Heap)];
  }

  lemma Takes(m: Mem, m1: Mem, len: nat, p: nat, next: nat)
    requires HeapInit(m) == Ok(m1) && RoundUp64(m1.heapNext, 16) == p
    requires Add64(p, len) <= m1.heapEnd && Behind(p, len) == next
    ensures HeapAlloc(m, len, 16) == (m1.(heapNext := next), Ok(p))
  {
    hide HeapInit, RoundUp64, Add64, Behind, MmapAlloc, AlignUp64;
  }

  lemma ArenaStays(libBase: nat, next: nat)
    requires next > 0
    ensures HeapInit(Arena(libBase, next)) == Ok(Arena(libBase, next))
  {
    hide SetPages;
  }

  lemma AlreadyRound(a: nat)
    requires a % 16 == 0 && a + 16 < TWO64
    ensures RoundUp64(a, 16) == a
  {
    hide RoundUp64, Add64;
    assert (a + 15) % 16 == 15;
  }

  lemma BehindShort(p: nat, k: nat)
    requires p + 32 * k + 32 < TWO64 && k > 0
    ensures Behind(p, 32 * k - 16) == p + 32 * k + 16 && Add64(p, 32 * k - 16) == p + 32 * k - 16
  {
    hide Add64;
    assert (32 * k + 15) % 32 == 15;
  }

  lemma BehindWrapped(p: nat)
    requires 0xff0 <= p < HALF
    ensures Behind(p, TWO64 - 0xff0) == p - 0xfd0 && Add64(p, TWO64 - 0xff0) == p - 0xff0
  {
    hide Add64;
    var x := TWO64 - 0xfd1;
    assert x % 0x20 == 15;
    WrappedSum(p, TWO64 - 0xfe0);
    WrappedSum(p, TWO64 - 0xff0);
  }

  lemma ThreeServed(libBase: nat)
    ensures HeapAlloc(Fresh(libBase), 0xfd0, 16) == (Arena(libBase, 0x4000_0ff0), Ok(0x4000_0000))
    ensures HeapAlloc(Arena(libBase, 0x4000_0ff0), TWO64 - 0xff0, 16) == (Arena(libBase, 0x4000_0020), Ok(0x4000_0ff0))
    ensures HeapAlloc(Arena(libBase, 0x4000_0020), 16, 16) == (Arena(libBase, 0x4000_0050), Ok(0x4000_0020))
  {
    hide HeapAlloc, HeapInit, RoundUp64, Add64, Behind, SetPages;
    ArenaMapped(libBase);
    ArenaStays(libBase, 0x4000_0ff0);
    ArenaStays(libBase, 0x4000_0020);
    AlreadyRound(0x4000_0000);
    AlreadyRound(0x4000_0ff0);
    AlreadyRound(0x4000_0020);
    BehindShort(0x4000_0000, 127);
    BehindWrapped(0x4000_0ff0);
    BehindShort(0x4000_0020, 1);
    Takes(Fresh(libBase), Arena(libBase, 0x4000_0000), 0xfd0, 0x4000_0000, 0x4000_0ff0);
    Takes(Arena(libBase, 0x4000_0ff0), Arena(libBase, 0x4000_0ff0), TWO64 - 0xff0, 0x4000_0ff0, 0x4000_0020);
    Takes(Arena(libBase, 0x4000_0020), Arena(libBase, 0x4000_0020), 16, 0x4000_0020, 0x4000_0050);
  }

  lemma {:induction false} HistorySnoc(m: Mem, reqs: seq<Request>, q: Request)
    requires (forall r :: r in reqs ==> Legal(r)) && Legal(q)
    ensures var (m1, blocks) := History(m, reqs);
      var (m', answer) := Serve(m1, q);
      History(m, reqs + [q]) == (m', blocks + Record(q, m', answer))
  {
    hide Serve, Record;
    assert (reqs + [q])[..|reqs|] == reqs;
  }

  lemma SixteenIsLegal(len: nat)
    ensures Legal(HeapReq(len, 16))
  {
    assert PowerOfTwo(1) && PowerOfTwo(2) && PowerOfTwo(4) && PowerOfTwo(8);
  }

  /** Three requests to a fresh manager. The second is answered, not refused, and moves the
      cursor back, so that the third gets a block inside the first. */
  lemma BlocksOverlap(libBase: nat)
    ensures Legal(FIRST) && Legal(WRAPPING) && Legal(THIRD)
    ensures var end := Some(HEAP_BASE + HEAP_SIZE);
      History(Fresh(libBase), [FIRST] + [WRAPPING] + [THIRD]).1 ==
        [Block(0x4000_0000, 0xfd0, end, 16), Block(0x4000_0ff0, TWO64 - 0xff0, end, 16),
         Block(0x4000_0020, 16, end, 16)]
    ensures var blocks := History(Fresh(libBase), [FIRST] + [WRAPPING] + [THIRD]).1;
      !Disjoint(blocks[0], blocks[2])
    ensures !Sound(Arena(libBase, 0x4000_0ff0), WRAPPING.len, 16)
  {
    hide HeapAlloc, SetPages, PowerOfTwo;
    SixteenIsLegal(FIRST.len);
    SixteenIsLegal(WRAPPING.len);
    SixteenIsLegal(THIRD.len);
    var m := Fresh(libBase);
    ThreeServed(libBase);
    hide History;
    NoRequests(m);
    HistorySnoc(m, [], FIRST);
    assert [] + [FIRST] == [FIRST];
    HistorySnoc(m, [FIRST], WRAPPING);
    HistorySnoc(m, [FIRST] + [WRAPPING], THIRD);
    assert RoundUp(0x4000_0ff0, 16) == 0x4000_0ff0;
  }

  lemma NoRequests(m: Mem)
    ensures History(m, []) == (m, [])
  {
  }

  // ----- the Java region -----

  lemma JavaCursor(m: Mem, blocks: seq<Block>)
    requires HistoryInv(m, blocks) && m.javaNext != 0
    ensures m.javaNext <= m.javaEnd < HALF
  {
  }

  /** Exactly when a Java request keeps the history: for alignments up to a page and memory
      in the lower half, if and only if the aligned cursor plus the length stays in 64 bits,
      or wraps to a sum that is refused all the same. */
  lemma JavaKeepsHistoryIff(m: Mem, blocks: seq<Block>, len: nat, align: nat)
    requires HistoryInv(m, blocks) && JavaInit(m).Ok? && 0 < align <= PAGE && 0 < len < TWO64
    requires Low(JavaInit(m).value)
    ensures var (m', res) := JavaAlloc(m, len, align);
      var m1 := JavaInit(m).value;
      var sum := RoundUp(m1.javaNext, align) + len;
      HistoryInv(m', blocks + Record(JavaReq(len, align), m', res)) <==> sum < TWO64 || sum - TWO64 > m1.javaEnd
  {
    hide HistoryInv, JavaInit, RoundUp, RoundUp64, Add64;
    var m1 := JavaInit(m).value;
    JavaInitStep(m, blocks);
    JavaCursor(m1, blocks);
    var p := RoundUp(m1.javaNext, align);
    assert RoundUp64(m1.javaNext, align) == p;
    assert blocks + [] == blocks;
    if p + len < TWO64 {
      JavaStep(m, blocks, len, align);
    } else {
      WrappedSum(p, len);
      if p + len - TWO64 <= m1.javaEnd {
        NoSuchBlock(m1.(javaNext := Add64(p, len)), blocks, Block(p, len, None, align));
      }
    }
  }

  // ----- fixed mappings -----

  lemma PastTheEnd(m: Mem, blocks: seq<Block>, b: Block)
    requires Inv(m) && b.addr + b.len > TWO64
    ensures !HistoryInv(m, blocks + [b])
  {
    assert !Inside(m.regions, b.addr, b.len);
    assert !BlockOk(m, (blocks + [b])[|blocks|]);
  }

  /** The pages of a range that wraps around: none, unless it ends in its first page. */
  lemma WrappedPages(addr: nat, len: nat)
    requires addr < TWO64 && len < TWO64 && addr + len > TWO64
    ensures var base, end := AlignDown(addr), AlignUp64(Add64(addr, len));
      && (addr + len - TWO64 <= base ==> (end - base) % TWO64 == 0 || base + (end - base) % TWO64 > TWO64)
      && (addr + len - TWO64 > base ==> (end - base) % TWO64 == PAGE)
  {
    hide AlignUp64, Aligned;
    var s, base := addr + len - TWO64, AlignDown(addr);
    WrappedSum(addr, len);
    if s + PAGE - 1 < TWO64 { WrappedEnd(base, s); } else { RoundsToZero(s); LastPage(addr, s); }
  }

  lemma WrappedEnd(base: nat, s: nat)
    requires Aligned(base) && s + PAGE - 1 < TWO64 && 0 < s < base + PAGE <= TWO64
    ensures s <= base ==> PAGE <= AlignUp64(s) <= base
    ensures s > base ==> AlignUp64(s) == base + PAGE
  {
  }

  lemma LastPage(addr: nat, s: nat)
    requires TWO64 - PAGE < s < addr < TWO64
    ensures AlignDown(addr) == TWO64 - PAGE
  {
  }

  /** Exactly when a fixed mapping keeps the history. A range that wraps around past its
      own first page is refused; one that wraps into it is answered with that single page
      if the page is free, and then the block handed out does not exist. */
  lemma FixedKeepsHistoryIff(m: Mem, blocks: seq<Block>, addr: nat, len: nat, prot: nat, kind: Kind)
    requires HistoryInv(m, blocks) && addr < TWO64 && 0 < len < TWO64
    ensures var (m', res) := MapFixed(m, addr, len, prot, kind);
      var base := AlignDown(addr);
      HistoryInv(m', blocks + Record(FixedReq(addr, len, prot, kind), m', res)) <==>
        addr + len <= TWO64 || addr + len - TWO64 <= base || IsMapped(m.regions, base)
  {
    hide HistoryInv, AlignUp64, Add64, AlignDown, AddRegion, IsMapped, Overlaps, Inv;
    FixedStep(m, blocks, addr, len, prot, kind);
    assert blocks + [] == blocks;
    if addr + len > TWO64 {
      WrappedPages(addr, len);
      WrappedAnswer(m, blocks, addr, len, prot, kind);
      var (m', res) := MapFixed(m, addr, len, prot, kind);
      if res.Ok? { HistoryHasInv(m', blocks); PastTheEnd(m', blocks, Block(addr, len, None, 1)); }
    }
  }

  lemma HistoryHasInv(m: Mem, blocks: seq<Block>)
    requires HistoryInv(m, blocks)
    ensures Inv(m)
  {
  }

  lemma WrappedAnswer(m: Mem, blocks: seq<Block>, addr: nat, len: nat, prot: nat, kind: Kind)
    requires HistoryInv(m, blocks) && addr < TWO64 && len < TWO64 && addr + len > TWO64
    ensures MapFixed(m, addr, len, prot, kind).1.Ok? <==>
      addr + len - TWO64 > AlignDown(addr) && !IsMapped(m.regions, AlignDown(addr))
  {
    hide AlignUp64, Add64, AlignDown, AddRegion, IsMapped, Aligned, Synced, RegionsOk, Free, Overlaps;
    var base, end := AlignDown(addr), AlignUp64(Add64(addr, len));
    WrappedPages(addr, len);
    AlignedDifference(base, end);
    var r := Region(base, (end - base) % TWO64, prot, kind);
    AddRegionSpec(m, r);
    if addr + len - TWO64 > base {
      PageMapped(m, base);
      WrappedFits(addr, len);
      if Free(m.regions, base, PAGE) { FreeNoOverlap(m.regions, base, PAGE, end); }
    }
  }

  lemma WrappedFits(addr: nat, len: nat)
    requires addr < TWO64 && len < TWO64 && addr + len - TWO64 > AlignDown(addr)
    ensures AlignDown(addr) + PAGE <= TWO64
    ensures AlignUp64(Add64(addr, len)) <= AlignDown(addr) + PAGE
  {
    hide AlignUp64, Aligned;
    var s, base := addr + len - TWO64, AlignDown(addr);
    WrappedSum(addr, len);
    if s + PAGE - 1 < TWO64 { WrappedEnd(base, s); } else { RoundsToZero(s); LastPage(addr, s); }
  }
}

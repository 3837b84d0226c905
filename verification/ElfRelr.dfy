// RELR: the compressed stream of relative relocations ("Relative Relocation
// Table", Relocation chapter of the System V gABI). An even entry is an address;
// an odd entry is a bitmap over the 63 words that follow the last one.

module ElfRelr {
  import opened Common
  import opened LittleEndian
  import opened ElfReloc

  const SPAN: nat := 63 * 8

  // ----- what the loader does -----

  function BiasWord(mem: Image, bias: u64, a: nat): (m: Result<Image>)
    ensures m.Ok? ==> |m.value| == |mem|
  {
    if InImage(mem, a, 8) then Ok(Put64(mem, a, (Word64(mem, a) + bias) % TWO64)) else Err
  }

  function BiasBits(mem: Image, bias: u64, bits: nat, w: u64): (m: Result<Image>)
    ensures m.Ok? ==> |m.value| == |mem|
    decreases bits
  {
    if bits == 0 then Ok(mem)
    else if bits % 2 == 0 then BiasBits(mem, bias, bits / 2, (w + 8) % TWO64)
    else match BiasWord(mem, bias, w)
         case Err => Err
         case Ok(mem') => BiasBits(mem', bias, bits / 2, (w + 8) % TWO64)
  }

  /** One entry, given where the last one left off. */
  function RelrEntry(mem: Image, bias: u64, e: u64, where_: u64): (m: Result<Image>)
    ensures m.Ok? ==> |m.value| == |mem|
  {
    if e % 2 == 0 then BiasWord(mem, bias, (bias + e) % TWO64) else BiasBits(mem, bias, e / 2, where_)
  }

  function NextWhere(bias: u64, e: u64, where_: u64): u64 {
    if e % 2 == 0 then ((bias + e) % TWO64 + 8) % TWO64 else (where_ + SPAN) % TWO64
  }

  /** apply_relr: each entry is fetched from the memory being relocated. */
  function RelrTable(mem: Image, bias: u64, table: nat, n: nat, where_: u64): (m: Result<Image>)
    ensures m.Ok? ==> |m.value| == |mem|
    decreases n
  {
    if n == 0 then Ok(mem)
    else if !InImage(mem, table, 8) then Err
    else match RelrEntry(mem, bias, Word64(mem, table), where_)
         case Err => Err
         case Ok(mem') => RelrTable(mem', bias, table + 8, n - 1, NextWhere(bias, Word64(mem, table), where_))
  }

  method ApplyBits(mem0: Image, bias: u64, bits0: nat, where_: u64) returns (res: Result<Image>)
    ensures res == BiasBits(mem0, bias, bits0, where_)
  {
    hide BiasWord;
    var mem, bits := mem0, bits0;
    var w: u64 := where_;
    while bits != 0
      invariant BiasBits(mem0, bias, bits0, where_) == BiasBits(mem, bias, bits, w)
      decreases bits
    {
      if bits % 2 == 1 {
        var step := BiasWord(mem, bias, w);
        if step.Err? { return Err; }
        mem := step.value;
      }
      w := (w + 8) % TWO64;
      bits := bits / 2;
    }
    res := Ok(mem);
  }

  method ApplyEntry(mem: Image, bias: u64, entry: u64, where_: u64) returns (res: Result<Image>, next: u64)
    ensures res == RelrEntry(mem, bias, entry, where_) && next == NextWhere(bias, entry, where_)
  {
    hide BiasWord, BiasBits;
    if entry % 2 == 0 {
      next := (bias + entry) % TWO64;
      res := BiasWord(mem, bias, next);
      next := (next + 8) % TWO64;
    } else {
      res := ApplyBits(mem, bias, entry / 2, where_);
      next := (where_ + SPAN) % TWO64;
    }
  }

  method ApplyRelr(mem0: Image, bias: u64, table: nat, bytes: nat) returns (res: Result<Image>)
    ensures res == RelrTable(mem0, bias, table, bytes / 8, 0)
  {
    hide RelrEntry, NextWhere, Word64;
    var mem := mem0;
    var where_: u64 := 0;
    var o := 0;
    ghost var i := 0;
    while o + 8 <= bytes
      invariant o == 8 * i && i <= bytes / 8
      invariant RelrTable(mem0, bias, table, bytes / 8, 0) == RelrTable(mem, bias, table + o, bytes / 8 - i, where_)
    {
      if !InImage(mem, table + o, 8) { return Err; }
      var step, next := ApplyEntry(mem, bias, Word64(mem, table + o), where_);
      if step.Err? { return Err; }
      mem, where_ := step.value, next;
      o := o + 8;
      i := i + 1;
    }
    res := Ok(mem);
  }

  // ----- what the stream means -----

  function BitSlots(bits: nat, w: nat): (s: seq<nat>) {
    if bits == 0 then [] else (if bits % 2 == 1 then [w] else []) + BitSlots(bits / 2, w + 8)
  }

  /** The addresses a stream names, with `cursor` where the previous entry ended. */
  function Slots(entries: seq<u64>, bias: u64, cursor: nat): (s: seq<nat>) {
    if entries == [] then []
    else if entries[0] % 2 == 0 then
      var a := (bias + entries[0]) % TWO64;
      [a] + Slots(entries[1..], bias, a + 8)
    else BitSlots(entries[0] / 2, cursor) + Slots(entries[1..], bias, cursor + SPAN)
  }

  /** Address entries lie at or past the end of the previous run and nothing leaves
      the address space. */
  predicate WellPlaced(entries: seq<u64>, bias: u64, cursor: nat) {
    if entries == [] then true
    else if entries[0] % 2 == 0 then
      var a := (bias + entries[0]) % TWO64;
      cursor <= a && a + 8 < TWO64 && WellPlaced(entries[1..], bias, a + 8)
    else cursor + SPAN < TWO64 && WellPlaced(entries[1..], bias, cursor + SPAN)
  }

  predicate WellFormed(entries: seq<u64>, bias: u64) {
    (entries != [] ==> entries[0] % 2 == 0) && WellPlaced(entries, bias, 0)
  }

  function BiasAll(mem: Image, bias: u64, slots: seq<nat>): (m: Result<Image>)
    ensures m.Ok? ==> |m.value| == |mem|
    decreases |slots|
  {
    if slots == [] then Ok(mem)
    else match BiasWord(mem, bias, slots[0])
         case Err => Err
         case Ok(mem') => BiasAll(mem', bias, slots[1..])
  }

  /** Slots in increasing order, at least a word apart, all in [lo, hi). */
  ghost predicate Spaced(slots: seq<nat>, lo: nat, hi: nat) {
    && (forall i :: 0 <= i < |slots| ==> lo <= slots[i] && slots[i] + 8 <= hi)
    && (forall i, j :: 0 <= i < j < |slots| ==> slots[i] + 8 <= slots[j])
  }

  function Pow2(k: nat): (p: nat)
    ensures p > 0
  {
    if k == 0 then 1 else 2 * Pow2(k - 1)
  }

  lemma Pow2Word()
    ensures Pow2(63) == TWO64 / 2
  {
    assert Pow2(8) == 0x100;
    assert Pow2(16) == 0x1_0000;
    assert Pow2(24) == 0x100_0000;
    assert Pow2(32) == TWO32;
    assert Pow2(40) == 0x100_0000_0000;
    assert Pow2(48) == 0x1_0000_0000_0000;
    assert Pow2(56) == 0x100_0000_0000_0000;
  }

  lemma SpacedConcat(a: seq<nat>, b: seq<nat>, lo: nat, mid: nat, hi: nat)
    requires Spaced(a, lo, mid) && Spaced(b, mid, hi) && lo <= mid <= hi
    ensures Spaced(a + b, lo, hi)
  {
  }

  lemma {:induction false} BitSlotsSpaced(bits: nat, w: nat, k: nat)
    requires bits < Pow2(k)
    ensures Spaced(BitSlots(bits, w), w, w + 8 * k)
    decreases k
  {
    if bits != 0 {
      var rest := BitSlots(bits / 2, w + 8);
      var first := if bits % 2 == 1 then [w] else [];
      BitSlotsSpaced(bits / 2, w + 8, k - 1);
      hide Pow2;
      assert BitSlots(bits, w) == first + rest;
      hide BitSlots;
      SpacedConcat(first, rest, w, w + 8, w + 8 * k);
    }
  }

  lemma {:induction false} SlotsSpaced(entries: seq<u64>, bias: u64, cursor: nat)
    requires WellPlaced(entries, bias, cursor) && cursor < TWO64
    ensures Spaced(Slots(entries, bias, cursor), cursor, TWO64)
    decreases |entries|
  {
    if entries != [] {
      if entries[0] % 2 == 0 {
        var a := (bias + entries[0]) % TWO64;
        SlotsSpaced(entries[1..], bias, a + 8);
        SpacedConcat([a], Slots(entries[1..], bias, a + 8), cursor, a + 8, TWO64);
      } else {
        Pow2Word();
        hide Pow2;
        BitSlotsSpaced(entries[0] / 2, cursor, 63);
        SlotsSpaced(entries[1..], bias, cursor + SPAN);
        SpacedConcat(BitSlots(entries[0] / 2, cursor), Slots(entries[1..], bias, cursor + SPAN), cursor,
          cursor + SPAN, TWO64);
      }
    }
  }

  // ----- the loader does what the stream means -----

  lemma {:induction false} BiasAllConcat(mem: Image, bias: u64, a: seq<nat>, b: seq<nat>)
    ensures BiasAll(mem, bias, a + b) ==
      match BiasAll(mem, bias, a) case Err => Err case Ok(mem') => BiasAll(mem', bias, b)
    decreases |a|
  {
    hide BiasWord;
    if a == [] {
      assert a + b == b;
    } else {
      assert (a + b)[1..] == a[1..] + b;
      if BiasWord(mem, bias, a[0]).Ok? { BiasAllConcat(BiasWord(mem, bias, a[0]).value, bias, a[1..], b); }
    }
  }

  lemma BiasFirst(mem: Image, bias: u64, a: nat, rest: seq<nat>)
    ensures BiasAll(mem, bias, [a] + rest) ==
      match BiasWord(mem, bias, a) case Err => Err case Ok(mem') => BiasAll(mem', bias, rest)
  {
    hide BiasWord;
    assert ([a] + rest)[1..] == rest;
  }

  lemma SlotsStep(bits: nat, w: nat)
    requires bits != 0
    ensures BitSlots(bits, w) == if bits % 2 == 1 then [w] + BitSlots(bits / 2, w + 8) else BitSlots(bits / 2, w + 8)
  {
  }

  lemma HalfBits(bits: nat, k: nat)
    requires bits != 0 && bits < Pow2(k)
    ensures k > 0 && bits / 2 < Pow2(k - 1)
  {
  }

  lemma BiasStep(mem: Image, bias: u64, bits: nat, w: u64)
    requires bits != 0 && w + 8 < TWO64
    ensures BiasBits(mem, bias, bits, w) ==
      if bits % 2 == 0 then BiasBits(mem, bias, bits / 2, w + 8)
      else match BiasWord(mem, bias, w) case Err => Err case Ok(mem') => BiasBits(mem', bias, bits / 2, w + 8)
  {
    hide BiasWord;
  }

  lemma NoBits(mem: Image, bias: u64, w: u64)
    ensures BiasBits(mem, bias, 0, w) == BiasAll(mem, bias, BitSlots(0, w))
  {
  }

  lemma {:induction false} BitsAreSlots(mem: Image, bias: u64, bits: nat, w: u64, k: nat)
    requires bits < Pow2(k) && w + 8 * k < TWO64
    ensures BiasBits(mem, bias, bits, w) == BiasAll(mem, bias, BitSlots(bits, w))
    decreases k
  {
    hide BiasWord, BiasAll, BitSlots, BiasBits, Pow2;
    if bits == 0 {
      NoBits(mem, bias, w);
    } else {
      HalfBits(bits, k);
      SlotsStep(bits, w);
      BiasStep(mem, bias, bits, w);
      if bits % 2 == 0 {
        BitsAreSlots(mem, bias, bits / 2, w + 8, k - 1);
      } else {
        BiasFirst(mem, bias, w, BitSlots(bits / 2, w + 8));
        if BiasWord(mem, bias, w).Ok? { BitsAreSlots(BiasWord(mem, bias, w).value, bias, bits / 2, w + 8, k - 1); }
      }
    }
  }

  function RelrList(mem: Image, bias: u64, entries: seq<u64>, where_: u64): (m: Result<Image>)
    ensures m.Ok? ==> |m.value| == |mem|
    decreases |entries|
  {
    if entries == [] then Ok(mem)
    else match RelrEntry(mem, bias, entries[0], where_)
         case Err => Err
         case Ok(mem') => RelrList(mem', bias, entries[1..], NextWhere(bias, entries[0], where_))
  }

  lemma BiasOne(mem: Image, bias: u64, a: nat)
    ensures BiasAll(mem, bias, [a]) == BiasWord(mem, bias, a)
  {
    hide BiasWord;
    assert [a] + [] == [a];
    BiasFirst(mem, bias, a, []);
  }

  lemma EntryIsSlots(mem: Image, bias: u64, entries: seq<u64>, cursor: u64)
    requires entries != [] && WellPlaced(entries, bias, cursor)
    ensures var next := NextWhere(bias, entries[0], cursor);
      && WellPlaced(entries[1..], bias, next)
      && (exists mine :: Slots(entries, bias, cursor) == mine + Slots(entries[1..], bias, next) &&
                         RelrEntry(mem, bias, entries[0], cursor) == BiasAll(mem, bias, mine))
  {
    hide BiasWord, BiasAll, BitSlots, BiasBits, Pow2;
    var e, next := entries[0], NextWhere(bias, entries[0], cursor);
    if e % 2 == 0 {
      var a := (bias + e) % TWO64;
      assert Slots(entries, bias, cursor) == [a] + Slots(entries[1..], bias, next);
      BiasOne(mem, bias, a);
    } else {
      Pow2Word();
      BitsAreSlots(mem, bias, e / 2, cursor, 63);
      assert Slots(entries, bias, cursor) == BitSlots(e / 2, cursor) + Slots(entries[1..], bias, next);
    }
  }

  lemma {:induction false} ListIsSlots(mem: Image, bias: u64, entries: seq<u64>, cursor: u64)
    requires WellPlaced(entries, bias, cursor)
    ensures RelrList(mem, bias, entries, cursor) == BiasAll(mem, bias, Slots(entries, bias, cursor))
    decreases |entries|
  {
    if entries != [] {
      hide RelrEntry, BiasWord, NextWhere, WellPlaced;
      EntryIsSlots(mem, bias, entries, cursor);
      var next := NextWhere(bias, entries[0], cursor);
      var mine :| Slots(entries, bias, cursor) == mine + Slots(entries[1..], bias, next) &&
                  RelrEntry(mem, bias, entries[0], cursor) == BiasAll(mem, bias, mine);
      hide Slots;
      BiasAllConcat(mem, bias, mine, Slots(entries[1..], bias, next));
      if BiasAll(mem, bias, mine).Ok? {
        ListIsSlots(BiasAll(mem, bias, mine).value, bias, entries[1..], next);
      }
    }
  }

  // ----- exactly once, and nothing else -----

  ghost predicate Untouched(slots: seq<nat>, a: nat, n: nat) {
    forall i :: 0 <= i < |slots| ==> slots[i] + 8 <= a || a + n <= slots[i]
  }

  lemma WordFrame(mem: Image, bias: u64, s: nat, a: nat, n: nat)
    requires BiasWord(mem, bias, s).Ok? && InImage(mem, a, n) && (s + 8 <= a || a + n <= s)
    ensures BiasWord(mem, bias, s).value[a..a + n] == mem[a..a + n]
  {
    hide Put64, Word64;
  }

  lemma {:induction false} BiasAllFrame(mem: Image, bias: u64, slots: seq<nat>, a: nat, n: nat)
    requires BiasAll(mem, bias, slots).Ok? && InImage(mem, a, n) && Untouched(slots, a, n)
    ensures BiasAll(mem, bias, slots).value[a..a + n] == mem[a..a + n]
    decreases |slots|
  {
    hide BiasWord;
    if slots != [] {
      WordFrame(mem, bias, slots[0], a, n);
      BiasAllFrame(BiasWord(mem, bias, slots[0]).value, bias, slots[1..], a, n);
    }
  }

  lemma BiasWordValue(mem: Image, bias: u64, s: nat)
    requires BiasWord(mem, bias, s).Ok?
    ensures InImage(mem, s, 8) && Word64(BiasWord(mem, bias, s).value, s) == (Word64(mem, s) + bias) % TWO64
  {
    hide Put64, Word64;
    GetPut64(mem, s, (Word64(mem, s) + bias) % TWO64);
  }

  lemma {:induction false} BiasAllOnce(mem: Image, bias: u64, slots: seq<nat>, i: nat)
    requires BiasAll(mem, bias, slots).Ok? && Spaced(slots, 0, TWO64) && i < |slots|
    ensures InImage(mem, slots[i], 8)
    ensures Word64(BiasAll(mem, bias, slots).value, slots[i]) == (Word64(mem, slots[i]) + bias) % TWO64
    decreases |slots|
  {
    hide BiasWord, Decode;
    var mem' := BiasWord(mem, bias, slots[0]).value;
    assert Spaced(slots[1..], 0, TWO64);
    if i == 0 {
      BiasWordValue(mem, bias, slots[0]);
      assert Untouched(slots[1..], slots[0], 8);
      BiasAllFrame(mem', bias, slots[1..], slots[0], 8);
    } else {
      BiasAllOnce(mem', bias, slots[1..], i - 1);
      WordFrame(mem, bias, slots[0], slots[i], 8);
    }
  }

  // ----- the stream in memory -----

  ghost predicate Stream(mem: Image, table: nat, entries: seq<u64>) {
    InImage(mem, table, 8 * |entries|) &&
    forall i :: 0 <= i < |entries| ==> Word64(mem, table + 8 * i) == entries[i]
  }

  lemma {:induction false} TableIsStream(mem: Image, bias: u64, table: nat, entries: seq<u64>, cursor: u64)
    requires Stream(mem, table, entries) && WellPlaced(entries, bias, cursor)
    requires Untouched(Slots(entries, bias, cursor), table, 8 * |entries|)
    ensures RelrTable(mem, bias, table, |entries|, cursor) == RelrList(mem, bias, entries, cursor)
    decreases |entries|
  {
    if entries != [] {
      hide RelrEntry, BiasWord, NextWhere, WellPlaced, Decode;
      assert Word64(mem, table + 8 * 0) == entries[0];
      EntryIsSlots(mem, bias, entries, cursor);
      var next := NextWhere(bias, entries[0], cursor);
      var mine :| Slots(entries, bias, cursor) == mine + Slots(entries[1..], bias, next) &&
                  RelrEntry(mem, bias, entries[0], cursor) == BiasAll(mem, bias, mine);
      hide Slots;
      var rest := Slots(entries[1..], bias, next);
      if BiasAll(mem, bias, mine).Ok? {
        StreamSurvives(mem, bias, table, entries, mine, rest);
        TableIsStream(BiasAll(mem, bias, mine).value, bias, table + 8, entries[1..], next);
      }
    }
  }

  lemma StreamSurvives(mem: Image, bias: u64, table: nat, entries: seq<u64>, mine: seq<nat>, rest: seq<nat>)
    requires entries != [] && Stream(mem, table, entries)
    requires Untouched(mine + rest, table, 8 * |entries|) && BiasAll(mem, bias, mine).Ok?
    ensures Stream(BiasAll(mem, bias, mine).value, table + 8, entries[1..])
    ensures Untouched(rest, table + 8, 8 * |entries[1..]|)
  {
    hide BiasAll, Decode;
    var mem' := BiasAll(mem, bias, mine).value;
    var all := mine + rest;
    assert forall i :: 0 <= i < |mine| ==> all[i] == mine[i];
    assert forall i :: 0 <= i < |rest| ==> all[|mine| + i] == rest[i];
    forall i | 0 <= i < |entries[1..]| ensures Word64(mem', table + 8 + 8 * i) == entries[1..][i] {
      assert Word64(mem, table + 8 * (i + 1)) == entries[i + 1];
      BiasAllFrame(mem, bias, mine, table + 8 + 8 * i, 8);
    }
  }

  /** RELR is exact. For every well-formed stream in memory whose slots do not touch
      the stream itself: if the loader succeeds, each slot the stream names has had
      the load bias added exactly once and every other byte is as before. */
  lemma RelrExact(mem: Image, bias: u64, table: nat, entries: seq<u64>)
    requires Stream(mem, table, entries) && WellFormed(entries, bias)
    requires Untouched(Slots(entries, bias, 0), table, 8 * |entries|)
    requires RelrTable(mem, bias, table, |entries|, 0).Ok?
    ensures var slots := Slots(entries, bias, 0);
      var mem' := RelrTable(mem, bias, table, |entries|, 0).value;
      && (forall i :: 0 <= i < |slots| ==>
            InImage(mem, slots[i], 8) && Word64(mem', slots[i]) == (Word64(mem, slots[i]) + bias) % TWO64)
      && (forall a: nat :: a < |mem| && Untouched(slots, a, 1) ==> mem'[a] == mem[a])
  {
    hide RelrTable, RelrList, WellPlaced, Stream, Slots, BiasAll, Word64;
    var slots := Slots(entries, bias, 0);
    TableIsStream(mem, bias, table, entries, 0);
    ListIsSlots(mem, bias, entries, 0);
    SlotsSpaced(entries, bias, 0);
    forall i | 0 <= i < |slots|
      ensures InImage(mem, slots[i], 8)
      ensures Word64(BiasAll(mem, bias, slots).value, slots[i]) == (Word64(mem, slots[i]) + bias) % TWO64
    {
      BiasAllOnce(mem, bias, slots, i);
    }
    forall a: nat | a < |mem| && Untouched(slots, a, 1) ensures BiasAll(mem, bias, slots).value[a] == mem[a] {
      BiasAllFrame(mem, bias, slots, a, 1);
      assert BiasAll(mem, bias, slots).value[a] == BiasAll(mem, bias, slots).value[a..a + 1][0];
    }
  }

  // ----- agreement with plain RELATIVE relocation -----

  /** The RELATIVE entries that say the same: the slots' current words as addends. */
  function AsRela(ld: Loader, mem: Image, slots: seq<nat>): (rs: seq<Rela>)
    requires forall i :: 0 <= i < |slots| ==> InImage(mem, slots[i], 8)
    requires 0 <= ld.kinds.relative < TWO32
    ensures |rs| == |slots|
  {
    seq(|slots|, i requires 0 <= i < |slots| =>
      Rela((slots[i] - ld.bias) % TWO64, ld.kinds.relative, Word64(mem, slots[i])))
  }

  lemma {:induction false} BiasAllIsRela(ld: Loader, mem0: Image, mem: Image, slots: seq<nat>)
    requires 0 <= ld.kinds.relative < TWO32 && Spaced(slots, 0, TWO64)
    requires |mem0| == |mem| && forall i :: 0 <= i < |slots| ==> InImage(mem0, slots[i], 8)
    requires forall i :: 0 <= i < |slots| ==> InImage(mem, slots[i], 8)
    requires forall i :: 0 <= i < |slots| ==> Word64(mem0, slots[i]) == Word64(mem, slots[i])
    ensures BiasAll(mem, ld.bias, slots) == ApplyAll(ld, mem, AsRela(ld, mem0, slots))
    decreases |slots|
  {
    hide Put64, Decode;
    var rs := AsRela(ld, mem0, slots);
    if slots != [] {
      assert rs[1..] == AsRela(ld, mem0, slots[1..]);
      var mem' := BiasWord(mem, ld.bias, slots[0]).value;
      assert Where(ld, rs[0]) == slots[0];
      assert ApplyOne(ld, mem, rs[0]) == Ok(mem');
      hide BiasWord, ApplyOne;
      forall i | 0 <= i < |slots[1..]| ensures Word64(mem0, slots[1..][i]) == Word64(mem', slots[1..][i]) {
        assert slots[1..][i] == slots[i + 1];
        WordFrame(mem, ld.bias, slots[0], slots[i + 1], 8);
      }
      assert Spaced(slots[1..], 0, TWO64);
      BiasAllIsRela(ld, mem0, mem', slots[1..]);
    }
  }

  lemma {:induction false} BiasAllDefined(mem: Image, bias: u64, slots: seq<nat>)
    ensures BiasAll(mem, bias, slots).Ok? <==> forall i :: 0 <= i < |slots| ==> InImage(mem, slots[i], 8)
    decreases |slots|
  {
    if slots != [] && InImage(mem, slots[0], 8) {
      BiasAllDefined(BiasWord(mem, bias, slots[0]).value, bias, slots[1..]);
      assert forall i :: 0 < i < |slots| ==> slots[i] == slots[1..][i - 1];
    }
  }

  /** The compressed stream and the list of plain RELATIVE entries for its slots,
      run through the RELA code, leave the same memory. */
  lemma RelrIsRelative(ld: Loader, mem: Image, table: nat, entries: seq<u64>)
    requires 0 <= ld.kinds.relative < TWO32
    requires Stream(mem, table, entries) && WellFormed(entries, ld.bias)
    requires Untouched(Slots(entries, ld.bias, 0), table, 8 * |entries|)
    requires forall i :: 0 <= i < |Slots(entries, ld.bias, 0)| ==> InImage(mem, Slots(entries, ld.bias, 0)[i], 8)
    ensures RelrTable(mem, ld.bias, table, |entries|, 0).Ok?
    ensures RelrTable(mem, ld.bias, table, |entries|, 0) ==
      ApplyAll(ld, mem, AsRela(ld, mem, Slots(entries, ld.bias, 0)))
  {
    hide RelrTable, RelrList, WellPlaced, Stream, Slots, ApplyAll, AsRela;
    TableIsStream(mem, ld.bias, table, entries, 0);
    ListIsSlots(mem, ld.bias, entries, 0);
    SlotsSpaced(entries, ld.bias, 0);
    BiasAllDefined(mem, ld.bias, Slots(entries, ld.bias, 0));
    BiasAllIsRela(ld, mem, mem, Slots(entries, ld.bias, 0));
  }
}

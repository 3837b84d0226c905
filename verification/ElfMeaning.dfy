// What the relocation formats mean, byte by byte: which word an Elf64_Rela entry stores and
// where, which addresses a RELR stream names, which bit of a group flag says what.

module ElfMeaning {
  import opened Common
  import opened LittleEndian
  import opened ElfReloc
  import R = ElfRelr
  import A = ElfAps2

  // ----- words -----

  /** A word is stored least significant byte first. */
  lemma WordBytes(d: seq<byte>, a: nat)
    requires InImage(d, a, 8)
    ensures Word64(d, a) ==
      Byte(d, a) + 0x100 * Byte(d, a + 1) + 0x1_0000 * Byte(d, a + 2) + 0x100_0000 * Byte(d, a + 3) +
      0x1_0000_0000 * Byte(d, a + 4) + 0x100_0000_0000 * Byte(d, a + 5) + 0x1_0000_0000_0000 * Byte(d, a + 6) +
      0x100_0000_0000_0000 * Byte(d, a + 7)
  {
    hide Decode;
    DecodeAt(d, a, 8);
    DecodeAt(d, a + 1, 7);
    DecodeAt(d, a + 2, 6);
    DecodeAt(d, a + 3, 5);
    DecodeAt(d, a + 4, 4);
    DecodeAt(d, a + 5, 3);
    DecodeAt(d, a + 6, 2);
    DecodeAt(d, a + 7, 1);
    DecodeAt(d, a + 8, 0);
  }

  // ----- one Elf64_Rela -----

  /** The memory is the same but for one word, which is now v. */
  ghost predicate WordIs(mem: Image, mem': Image, at: nat, v: int) {
    && InImage(mem, at, 8) && |mem'| == |mem| && Word64(mem', at) == v
    && forall i :: 0 <= i < at || at + 8 <= i < |mem| ==> mem'[i] == mem[i]
  }

  /** What an entry has to do, from its three words: r_offset is relative to the load bias;
      the low half of r_info is the type, the high half the symbol. A type of the machine
      that is none of the four does nothing. */
  ghost predicate Relocated(ld: Loader, mem: Image, off: u64, info: u64, addend: u64, res: Result<Image>) {
    var ty, sym, at := info % 0x1_0000_0000, info / 0x1_0000_0000, (ld.bias + off) % TWO64;
    var k := ld.kinds;
    if ty !in {k.relative, k.globDat, k.jumpSlot, k.abs} then res == Ok(mem)
    else if at + 8 > |mem| then res == Err
    else
      && res.Ok?
      && WordIs(mem, res.value, at,
                if ty == k.relative then (ld.bias + addend) % TWO64
                else if ty == k.globDat || ty == k.jumpSlot then ld.resolve(mem, sym)
                else (ld.resolve(mem, sym) + addend) % TWO64)
  }

  lemma OneRelocates(ld: Loader, mem: Image, r: Rela)
    ensures Relocated(ld, mem, r.offset, r.info, r.addend, ApplyOne(ld, mem, r))
  {
    hide Put64, Word64;
    var v := ValueOf(ld, mem, r);
    if v.Some? && InImage(mem, Where(ld, r), 8) { GetPut64(mem, Where(ld, r), v.value); }
  }

  /** The first entry of a table, as it stands in memory. */
  lemma EntryRelocates(ld: Loader, mem: Image, table: nat)
    requires InImage(mem, table, 24)
    ensures Relocated(ld, mem, Word64(mem, table), Word64(mem, table + 8), Word64(mem, table + 16),
                      ApplyTable(ld, mem, table, 1))
  {
    hide Relocated, ApplyOne, Word64;
    var r := RelaAt(mem, table);
    OneRelocates(ld, mem, r);
    TableOne(ld, mem, table);
  }

  lemma TableOne(ld: Loader, mem: Image, table: nat)
    requires InImage(mem, table, 24)
    ensures ApplyTable(ld, mem, table, 1) == ApplyOne(ld, mem, RelaAt(mem, table))
  {
    hide ApplyOne, RelaAt;
    var one := ApplyOne(ld, mem, RelaAt(mem, table));
    if one.Ok? { assert ApplyTable(ld, one.value, table + RELA_SIZE, 0) == one; }
  }

  /** A table is its entries, 24 bytes apart, one after the other. */
  lemma {:induction false} TableInParts(ld: Loader, mem: Image, table: nat, n: nat, k: nat)
    ensures ApplyTable(ld, mem, table, 0) == Ok(mem)
    ensures ApplyTable(ld, mem, table, n + k) ==
      match ApplyTable(ld, mem, table, n)
      case Err => Err
      case Ok(mem') => ApplyTable(ld, mem', table + 24 * n, k)
    decreases n
  {
    hide ApplyOne, RelaAt;
    if n > 0 && InImage(mem, table, RELA_SIZE) {
      var one := ApplyOne(ld, mem, RelaAt(mem, table));
      if one.Ok? { TableInParts(ld, one.value, table + RELA_SIZE, n - 1, k); }
    }
  }

  // ----- whole lists -----

  /** Bytes outside every slot are never written. */
  lemma {:induction false} ListKeeps(ld: Loader, mem: Image, rs: seq<Rela>, a: nat)
    requires ApplyAll(ld, mem, rs).Ok? && a < |mem|
    requires forall i :: 0 <= i < |rs| ==> !(Where(ld, rs[i]) <= a < Where(ld, rs[i]) + 8)
    ensures ApplyAll(ld, mem, rs).value[a] == mem[a]
    decreases |rs|
  {
    hide ApplyOne, Where;
    if rs != [] {
      OneKeeps(ld, mem, rs[0], a);
      ListKeeps(ld, ApplyOne(ld, mem, rs[0]).value, rs[1..], a);
    }
  }

  lemma OneKeeps(ld: Loader, mem: Image, r: Rela, a: nat)
    requires ApplyOne(ld, mem, r).Ok? && a < |mem| && !(Where(ld, r) <= a < Where(ld, r) + 8)
    ensures ApplyOne(ld, mem, r).value[a] == mem[a]
  {
    hide Put64, ValueOf, Where;
  }

  /** The slot of an entry keeps its word unless a later entry writes there; symbols are
      looked up in the memory as the earlier entries left it. */
  lemma SlotFinally(ld: Loader, mem: Image, rs: seq<Rela>, i: nat)
    requires i < |rs| && ApplyAll(ld, mem, rs).Ok?
    requires InImage(mem, Where(ld, rs[i]), 8)
    requires forall j :: i < j < |rs| ==>
      Where(ld, rs[j]) + 8 <= Where(ld, rs[i]) || Where(ld, rs[i]) + 8 <= Where(ld, rs[j])
    ensures ApplyAll(ld, mem, rs[..i]).Ok?
    ensures var then_ := ApplyAll(ld, mem, rs[..i]).value;
      && ApplyOne(ld, then_, rs[i]).Ok?
      && Word64(ApplyAll(ld, mem, rs).value, Where(ld, rs[i])) ==
         Word64(ApplyOne(ld, then_, rs[i]).value, Where(ld, rs[i]))
  {
    hide ApplyOne, Where, ApplyAll, Decode;
    assert rs == rs[..i] + ([rs[i]] + rs[i + 1..]);
    ApplyAllConcat(ld, mem, rs[..i], [rs[i]] + rs[i + 1..]);
    var then_ := ApplyAll(ld, mem, rs[..i]).value;
    ListHead(ld, then_, rs[i], rs[i + 1..]);
    var mine := ApplyOne(ld, then_, rs[i]).value;
    var at := Where(ld, rs[i]);
    forall a | at <= a < at + 8 ensures ApplyAll(ld, mine, rs[i + 1..]).value[a] == mine[a] {
      ListKeeps(ld, mine, rs[i + 1..], a);
    }
    SliceFrame(mine, ApplyAll(ld, mine, rs[i + 1..]).value, at, 8);
  }

  lemma ListHead(ld: Loader, mem: Image, r: Rela, rest: seq<Rela>)
    ensures ApplyAll(ld, mem, [r] + rest) ==
      match ApplyOne(ld, mem, r) case Err => Err case Ok(mem') => ApplyAll(ld, mem', rest)
  {
    hide ApplyOne;
    assert ([r] + rest)[1..] == rest;
  }

  // ----- RELR -----

  ghost predicate Bit(v: nat, k: nat) { v / R.Pow2(k) % 2 == 1 }

  /** Bit k of a bitmap stands for the word 8k behind the cursor. */
  ghost predicate NamedBy(bits: nat, w: nat, x: nat) {
    exists k: nat :: Bit(bits, k) && x == w + 8 * k
  }

  lemma BitNext(v: nat, k: nat)
    ensures Bit(v, k + 1) <==> Bit(v / 2, k)
    ensures Bit(v, 0) <==> v % 2 == 1
  {
    DivTwice(v, 2, R.Pow2(k));
  }

  lemma {:induction false} BitSlotsNamed(bits: nat, w: nat, x: nat)
    ensures x in R.BitSlots(bits, w) <==> NamedBy(bits, w, x)
    decreases bits
  {
    hide Bit;
    if bits == 0 {
      forall k: nat ensures !Bit(0, k) { ZeroBits(k); }
    } else {
      BitSlotsNamed(bits / 2, w + 8, x);
      BitNext(bits, 0);
      if NamedBy(bits / 2, w + 8, x) {
        var k: nat :| Bit(bits / 2, k) && x == w + 8 + 8 * k;
        BitNext(bits, k);
        assert Bit(bits, k + 1) && x == w + 8 * (k + 1);
      }
      if NamedBy(bits, w, x) {
        var k: nat :| Bit(bits, k) && x == w + 8 * k;
        if k > 0 {
          BitNext(bits, k - 1);
          assert Bit(bits / 2, k - 1) && x == w + 8 + 8 * (k - 1);
        }
      }
      if bits % 2 == 1 { assert Bit(bits, 0) && w == w + 8 * 0; }
    }
  }

  lemma ZeroBits(k: nat)
    ensures !Bit(0, k)
  {
  }

  /** The bitmaps that follow an address: bit 1 + k of bitmap j stands for the word
      8 (63 j + k) behind the cursor. */
  ghost predicate NamedByMaps(maps: seq<u64>, w: nat, x: nat) {
    exists j: nat :: j < |maps| && NamedBy(maps[j] / 2, w + 504 * j, x)
  }

  lemma MapsShift(maps: seq<u64>, w: nat, x: nat)
    requires maps != []
    ensures NamedByMaps(maps, w, x) <==> NamedBy(maps[0] / 2, w, x) || NamedByMaps(maps[1..], w + 504, x)
  {
    hide NamedBy;
    if NamedByMaps(maps[1..], w + 504, x) {
      var j: nat :| j < |maps[1..]| && NamedBy(maps[1..][j] / 2, w + 504 + 504 * j, x);
      assert NamedBy(maps[j + 1] / 2, w + 504 * (j + 1), x);
    }
    if NamedByMaps(maps, w, x) {
      var j: nat :| j < |maps| && NamedBy(maps[j] / 2, w + 504 * j, x);
      if j > 0 { assert NamedBy(maps[1..][j - 1] / 2, w + 504 + 504 * (j - 1), x); }
    }
    if NamedBy(maps[0] / 2, w, x) { assert NamedBy(maps[0] / 2, w + 504 * 0, x); }
  }

  lemma {:induction false} MapsNamed(maps: seq<u64>, bias: u64, w: nat, x: nat)
    requires forall j :: 0 <= j < |maps| ==> maps[j] % 2 == 1
    ensures x in R.Slots(maps, bias, w) <==> NamedByMaps(maps, w, x)
    decreases |maps|
  {
    if maps == [] {
      assert R.Slots(maps, bias, w) == [];
    } else {
      hide NamedBy, NamedByMaps, R.Slots, R.BitSlots;
      assert maps[0] % 2 == 1;
      SlotsUnfold(maps[0], maps[1..], bias, w);
      assert maps == [maps[0]] + maps[1..];
      BitSlotsNamed(maps[0] / 2, w, x);
      MapsNamed(maps[1..], bias, w + 504, x);
      MapsShift(maps, w, x);
    }
  }

  /** An address entry and its bitmaps name the word at the address, and of the words behind
      it those whose bits are set, 63 to a bitmap. */
  lemma RunNames(a: u64, maps: seq<u64>, bias: u64, cursor: nat, x: nat)
    requires a % 2 == 0 && forall j :: 0 <= j < |maps| ==> maps[j] % 2 == 1
    ensures var first := (bias + a) % TWO64;
      x in R.Slots([a] + maps, bias, cursor) <==> x == first || NamedByMaps(maps, first + 8, x)
  {
    hide NamedByMaps, R.BitSlots;
    var first := (bias + a) % TWO64;
    assert ([a] + maps)[1..] == maps;
    MapsNamed(maps, bias, first + 8, x);
  }

  /** What an entry names by itself, and where it leaves the cursor. */
  function Mine(e: u64, bias: u64, cursor: nat): seq<nat> {
    if e % 2 == 0 then [(bias + e) % TWO64] else R.BitSlots(e / 2, cursor)
  }

  function NextCursor(e: u64, bias: u64, cursor: nat): nat {
    if e % 2 == 0 then (bias + e) % TWO64 + 8 else cursor + 504
  }

  lemma SlotsUnfold(e: u64, rest: seq<u64>, bias: u64, cursor: nat)
    ensures R.Slots([e] + rest, bias, cursor) ==
      Mine(e, bias, cursor) + R.Slots(rest, bias, NextCursor(e, bias, cursor))
  {
    hide R.BitSlots;
    assert ([e] + rest)[1..] == rest;
  }

  /** A stream is its runs, one after the other. */
  lemma {:induction false} RunsNames(run: seq<u64>, more: seq<u64>, bias: u64, cursor: nat)
    requires more != [] && more[0] % 2 == 0
    ensures R.Slots(run + more, bias, cursor) == R.Slots(run, bias, cursor) + R.Slots(more, bias, 0)
    decreases |run|
  {
    hide R.Slots, R.BitSlots, Mine, NextCursor;
    if run == [] {
      NoRun(more, bias, cursor);
    } else {
      var mine, next := Mine(run[0], bias, cursor), NextCursor(run[0], bias, cursor);
      SlotsUnfold(run[0], run[1..], bias, cursor);
      SlotsUnfold(run[0], run[1..] + more, bias, cursor);
      Regrouped(run, more);
      RunsNames(run[1..], more, bias, next);
      Associate(mine, R.Slots(run[1..], bias, next), R.Slots(more, bias, 0));
    }
  }

  lemma NoRun(more: seq<u64>, bias: u64, cursor: nat)
    requires more != [] && more[0] % 2 == 0
    ensures R.Slots([] + more, bias, cursor) == R.Slots([], bias, cursor) + R.Slots(more, bias, 0)
  {
    AnyCursor(more, bias, cursor);
    assert [] + more == more;
  }

  lemma Regrouped(run: seq<u64>, more: seq<u64>)
    requires run != []
    ensures run == [run[0]] + run[1..] && run + more == [run[0]] + (run[1..] + more)
  {
  }

  lemma Associate(a: seq<nat>, b: seq<nat>, c: seq<nat>)
    ensures a + (b + c) == a + b + c
  {
  }

  lemma AnyCursor(more: seq<u64>, bias: u64, cursor: nat)
    requires more != [] && more[0] % 2 == 0
    ensures R.Slots(more, bias, cursor) == R.Slots(more, bias, 0)
  {
  }

  // ----- APS2 -----

  lemma LowBits(q: nat, c: nat)
    requires c < 16
    ensures var f := 16 * q + c;
      f % 2 == c % 2 && f / 2 % 2 == c / 2 % 2 && f / 4 % 2 == c / 4 % 2 && f / 8 % 2 == c / 8
  {
    var f := 16 * q + c;
    assert f / 2 == 8 * q + c / 2 && f / 4 == 4 * q + c / 4 && f / 8 == 2 * q + c / 8;
    EvenPart(8 * q, c);
    EvenPart(4 * q, c / 2);
    EvenPart(2 * q, c / 4);
    EvenPart(q, c / 8);
  }

  lemma EvenPart(q: nat, c: nat)
    ensures (2 * q + c) % 2 == c % 2
  {
  }

  /** The four group flags are bits 0 to 3. */
  lemma FlagBits(q: nat, info: bool, delta: bool, addend: bool, has: bool)
    ensures var f := 16 * q + ((if info then 1 else 0) + (if delta then 2 else 0) +
                               (if addend then 4 else 0) + (if has then 8 else 0));
      f < TWO64 ==>
        A.ByInfo(f) == info && A.ByDelta(f) == delta && A.ByAddend(f) == addend && A.HasAddend(f) == has
  {
    LowBits(q, (if info then 1 else 0) + (if delta then 2 else 0) + (if addend then 4 else 0) + (if has then 8 else 0));
  }

  /** Text that does not start with the magic stands for no relocation at all. */
  lemma NoMagic(buf: seq<byte>)
    requires |buf| < 4 || exists i :: 0 <= i < 4 && buf[i] as char != "APS2"[i]
    ensures A.Unpack(buf) == Some([])
  {
    if |buf| >= 4 {
      var i :| 0 <= i < 4 && buf[i] as char != "APS2"[i];
      assert A.MAGIC[i] as char == "APS2"[i];
      assert buf[..4][i] == buf[i];
    }
  }
}

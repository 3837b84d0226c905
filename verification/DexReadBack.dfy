// Read-back: parsing the rebuilt DEX gives the classes of the input, with exactly
// the recovered native methods turned into methods with their recovered code.

module DexReadBack {
  import opened Common
  import LE = LittleEndian
  import opened Uleb128
  import opened DexModel
  import opened DexRebuild

  // ----- what is asked of the input -----

  /** Class data lies outside the header and the class definitions and is well formed. */
  ghost predicate ClassOk(d: Image, i: nat) {
    var off := Word32(d, Def(d, i) + DATA_SLOT);
    off != 0 ==>
      && HEADER <= off < |d| && DataOk(d, off)
      && (ReadData(d, off).pos <= DefsOff(d) || Def(d, DefsSize(d)) <= off)
  }

  ghost predicate WellFormed(d: Image) {
    && Accepts(d) && (DefsSize(d) > 0 ==> HEADER <= DefsOff(d))
    && forall i :: 0 <= i < DefsSize(d) ==> ClassOk(d, i)
  }

  // ----- code items -----

  /** Offset `pos` of the output holds `code`, four-byte aligned, behind the original. */
  ghost predicate HoldsCode(size: nat, tail: seq<byte>, pos: nat, code: seq<byte>) {
    size <= pos && pos % 4 == 0 && At(tail, pos - size, code)
  }

  lemma HoldsLonger(size: nat, tail: seq<byte>, longer: seq<byte>, pos: nat, code: seq<byte>)
    requires HoldsCode(size, tail, pos, code) && tail <= longer
    ensures HoldsCode(size, longer, pos, code)
  {
    var a := pos - size;
    assert longer[a..a + |code|] == tail[a..a + |code|];
  }

  lemma {:induction false} PlaceKeeps(size: nat, t: Placed, keys: seq<nat>, codes: Codes)
    requires forall k :: k in keys ==> k in codes
    ensures var r := PlaceAll(size, t, keys, codes);
      && t.tail <= r.tail
      && r.offs.Keys == t.offs.Keys + (set k | k in keys)
      && (forall k :: k in t.offs && k !in keys ==> r.offs[k] == t.offs[k])
    decreases |keys|
  {
    hide Pad;
    if keys != [] {
      PlaceKeeps(size, PlaceOne(size, t, keys[0], codes[keys[0]]), keys[1..], codes);
      assert (set k | k in keys) == {keys[0]} + (set k | k in keys[1..]);
    } else {
      assert (set k | k in keys) == {};
    }
  }

  lemma {:induction false} PlacedCode(size: nat, t: Placed, keys: seq<nat>, codes: Codes, key: nat)
    requires (forall k :: k in keys ==> k in codes) && (forall i, j :: 0 <= i < j < |keys| ==> keys[i] < keys[j])
    requires key in keys && size + |PlaceAll(size, t, keys, codes).tail| < TWO32
    ensures var r := PlaceAll(size, t, keys, codes);
      key in r.offs && HoldsCode(size, r.tail, r.offs[key], codes[key])
    decreases |keys|
  {
    hide Pad;
    var one := PlaceOne(size, t, keys[0], codes[keys[0]]);
    PlaceKeeps(size, one, keys[1..], codes);
    if key == keys[0] {
      var padded := t.tail + Pad(size + |t.tail|);
      assert At(one.tail, |padded|, codes[key]);
      assert HoldsCode(size, one.tail, size + |padded|, codes[key]);
      HoldsLonger(size, one.tail, PlaceAll(size, t, keys, codes).tail, size + |padded|, codes[key]);
    } else {
      PlacedCode(size, one, keys[1..], codes, key);
    }
  }

  // ----- class data -----

  lemma CountsFirst(d: Image, off: nat)
    requires DataOk(d, off)
    ensures OkN(d, off, 4) && ScanN(d, off, 4) == ReadN(d, off, 4)
    ensures ReadData(d, off).vals[..4] == ReadN(d, off, 4).vals
    ensures ReadN(d, off, 4).pos <= ReadData(d, off).pos
  {
    hide ReadN, ScanN, OkN;
    ReadNSplit(d, off, 4, ReadTotal(ReadN(d, off, 4).vals) - 4);
    ReadersAgreeN(d, off, 4);
  }

  lemma ScanIsRead(d: Image, off: nat)
    requires DataOk(d, off)
    ensures ScanData(d, off) == ReadData(d, off) && ScanN(d, off, 4) == ReadN(d, off, 4)
    ensures off <= |d| ==> ReadData(d, off).pos <= |d|
  {
    hide ReadN, ScanN, OkN;
    CountsFirst(d, off);
    ReadersAgreeN(d, off, ReadTotal(ReadN(d, off, 4).vals));
  }

  lemma DataFrame(d: Image, e: Image, off: nat)
    requires DataOk(d, off) && |d| <= |e| && Agree(d, e, off, ReadData(d, off).pos)
    ensures DataOk(e, off) && ReadData(e, off) == ReadData(d, off) && ReadN(e, off, 4) == ReadN(d, off, 4)
  {
    hide ReadN, OkN;
    CountsFirst(d, off);
    FrameN(d, e, off, 4);
    FrameN(d, e, off, ReadTotal(ReadN(d, off, 4).vals));
  }

  // ----- patched methods -----

  /** What becomes of a method: cleared and given code if it was native and recovered. */
  function Relink(m: Method, offs: map<nat, u32>): Method {
    if Recovers(offs, m.idx, m.access) then Method(m.idx, m.access - ACC_NATIVE, offs[m.idx]) else m
  }

  function RelinkAll(ms: seq<Method>, offs: map<nat, u32>): (r: seq<Method>)
    ensures |r| == |ms|
  {
    seq(|ms|, i requires 0 <= i < |ms| => Relink(ms[i], offs))
  }

  lemma {:induction false} PatchedMethods(vals: seq<u32>, acc: u32, offs: map<nat, u32>)
    requires |vals| % 3 == 0
    ensures Methods(Patch(vals, acc, offs), acc) == RelinkAll(Methods(vals, acc), offs)
    decreases |vals|
  {
    if vals == [] {
      assert RelinkAll([], offs) == [];
    } else {
      var idx := (acc + vals[0]) % TWO32;
      PatchedHead(vals, acc, offs);
      hide Methods, Patch, RelinkAll, Relink;
      PatchedMethods(vals[3..], idx, offs);
      RelinkCons(Method(idx, vals[1], vals[2]), Methods(vals[3..], idx), offs);
    }
  }

  lemma PatchedHead(vals: seq<u32>, acc: u32, offs: map<nat, u32>)
    requires vals != [] && |vals| % 3 == 0
    ensures var idx := (acc + vals[0]) % TWO32;
      var first := Method(idx, vals[1], vals[2]);
      && Methods(vals, acc) == [first] + Methods(vals[3..], idx)
      && Methods(Patch(vals, acc, offs), acc) == [Relink(first, offs)] + Methods(Patch(vals[3..], idx, offs), idx)
  {
    var idx := (acc + vals[0]) % TWO32;
    var p := Patch(vals, acc, offs);
    assert p[0] == vals[0] && p[3..] == Patch(vals[3..], idx, offs);
  }

  lemma RelinkCons(m: Method, ms: seq<Method>, offs: map<nat, u32>)
    ensures RelinkAll([m] + ms, offs) == [Relink(m, offs)] + RelinkAll(ms, offs)
  {
    hide Relink;
  }

  ghost predicate NoneRecovered(ms: seq<Method>, offs: map<nat, u32>) {
    forall m :: m in ms ==> !Recovers(offs, m.idx, m.access)
  }

  lemma {:induction false} NoHits(vals: seq<u32>, acc: u32, offs: map<nat, u32>)
    requires |vals| % 3 == 0
    ensures Hits(vals, acc, offs) == 0 <==> NoneRecovered(Methods(vals, acc), offs)
    decreases |vals|
  {
    if vals != [] {
      var idx := (acc + vals[0]) % TWO32;
      NoHits(vals[3..], idx, offs);
      var first, rest := Method(idx, vals[1], vals[2]), Methods(vals[3..], idx);
      assert Methods(vals, acc) == [first] + rest;
      assert forall m :: m in [first] + rest <==> m == first || m in rest;
    }
  }

  lemma Unrecovered(ms: seq<Method>, offs: map<nat, u32>)
    requires NoneRecovered(ms, offs)
    ensures RelinkAll(ms, offs) == ms
  {
  }

  lemma RewrittenParts(d: Image, off: nat, offs: map<nat, u32>)
    requires DataOk(d, off)
    ensures var vals, c, w := ReadData(d, off).vals, ReadN(d, off, 4).vals, Rewrite(d, off, offs);
      && |w.vals| == |vals| && w.vals[..4] == c && Fits(w.vals, c)
      && Directs(w.vals, c) == Patch(Directs(vals, c), 0, offs)
      && Virtuals(w.vals, c) == Patch(Virtuals(vals, c), 0, offs)
      && w.hits == Hits(Directs(vals, c), 0, offs) + Hits(Virtuals(vals, c), 0, offs)
  {
    hide ReadN, ScanN, OkN, Patch, Hits;
    ScanIsRead(d, off);
    CountsFirst(d, off);
    var vals, c := ReadData(d, off).vals, ReadN(d, off, 4).vals;
    var fixed := vals[..|vals| - MethodNums(c)];
    var w := Rewrite(d, off, offs);
    assert w.vals == fixed + Patch(Directs(vals, c), 0, offs) + Patch(Virtuals(vals, c), 0, offs);
    assert w.vals[..4] == fixed[..4] == vals[..4];
  }

  lemma WriteNPrefix(vals: seq<u32>, d: Image, p: nat)
    requires |vals| >= 4 && At(d, p, WriteN(vals))
    ensures ReadN(d, p, 4).vals == vals[..4]
  {
    hide ReadN, OkN, At, WriteN;
    ReadWriteN(d, p, vals);
    ReadNSplit(d, p, 4, |vals| - 4);
  }

  /** A rewritten block reads back as the input's methods, relinked. */
  lemma RewrittenReads(d: Image, off: nat, offs: map<nat, u32>, e: Image, p: nat)
    requires DataOk(d, off) && 0 < off < |d| && At(e, p, WriteN(Rewrite(d, off, offs).vals)) && 0 < p < |e|
    ensures MethodsAt(e, p) == (RelinkAll(MethodsAt(d, off).0, offs), RelinkAll(MethodsAt(d, off).1, offs))
  {
    hide ReadN, OkN, At, WriteN, Rewrite, RelinkAll, Methods, Patch, Directs, Virtuals;
    RewrittenParts(d, off, offs);
    var w := Rewrite(d, off, offs).vals;
    var vals, c := ReadData(d, off).vals, ReadN(d, off, 4).vals;
    ReadWriteN(e, p, w);
    WriteNPrefix(w, e, p);
    assert ReadData(e, p).vals == w;
    PatchedMethods(Directs(vals, c), 0, offs);
    PatchedMethods(Virtuals(vals, c), 0, offs);
  }

  /** A class is left alone exactly when none of its methods is recovered. */
  lemma LeftAloneIff(d: Image, off: nat, offs: map<nat, u32>)
    requires DataOk(d, off) && 0 < off < |d|
    ensures Rewrite(d, off, offs).hits == 0 <==>
      NoneRecovered(MethodsAt(d, off).0, offs) && NoneRecovered(MethodsAt(d, off).1, offs)
  {
    hide ReadN, OkN, Rewrite, Methods, Patch, Directs, Virtuals, NoneRecovered;
    RewrittenParts(d, off, offs);
    var vals, c := ReadData(d, off).vals, ReadN(d, off, 4).vals;
    NoHits(Directs(vals, c), 0, offs);
    NoHits(Virtuals(vals, c), 0, offs);
  }

  // ----- the relinking loop -----

  /** After the loop has passed class j: its definition still points to the original
      data, in which nothing was recovered, or to the rewritten block in the tail. */
  ghost predicate Done(d: Image, offs: map<nat, u32>, l: Link, j: nat) {
    var off, now := Word32(d, Def(d, j) + DATA_SLOT), Word32(l.d, Def(d, j) + DATA_SLOT);
    if off == 0 || Rewrite(d, off, offs).hits == 0 then now == off
    else |d| <= now && At(l.tail, now - |d|, WriteN(Rewrite(d, off, offs).vals))
  }

  /** Nothing but data slots of classes before i has changed. */
  ghost predicate OnlySlots(d: Image, e: Image, i: nat) {
    |e| == |d| && forall k :: 0 <= k < |d| && e[k] != d[k] ==> exists j :: 0 <= j < i && InSlot(DefsOff(d), j, k)
  }

  ghost predicate LoopInv(d: Image, offs: map<nat, u32>, l: Link, i: nat) {
    OnlySlots(d, l.d, i) && forall j :: 0 <= j < i && j < DefsSize(d) ==> Done(d, offs, l, j)
  }

  lemma OutsideSlots(d: Image, e: Image, i: nat, k: nat)
    requires OnlySlots(d, e, i) && k < |d| && forall j :: 0 <= j < i ==> !InSlot(DefsOff(d), j, k)
    ensures e[k] == d[k]
  {
  }

  lemma SlotUntouched(d: Image, e: Image, i: nat, j: nat)
    requires Accepts(d) && OnlySlots(d, e, i) && i <= j < DefsSize(d)
    ensures Word32(e, Def(d, j) + DATA_SLOT) == Word32(d, Def(d, j) + DATA_SLOT)
  {
    hide Word32, OnlySlots;
    assert |e| == |d| by { SlotsSize(d, e, i); }
    var o := Def(d, j) + DATA_SLOT;
    DefInside(d, j);
    forall k | o <= k < o + 4 ensures d[k] == e[k] {
      forall j' | 0 <= j' < i ensures !InSlot(DefsOff(d), j', k) { DefsApart(d, j', j); }
      OutsideSlots(d, e, i, k);
    }
    WordFrame(d, e, o);
  }

  lemma SlotsSize(d: Image, e: Image, i: nat)
    requires OnlySlots(d, e, i)
    ensures |e| == |d|
  {
  }

  lemma DataUntouched(d: Image, e: Image, i: nat, j: nat)
    requires WellFormed(d) && OnlySlots(d, e, i) && i <= DefsSize(d) && j < DefsSize(d)
    requires Word32(d, Def(d, j) + DATA_SLOT) != 0
    ensures var off := Word32(d, Def(d, j) + DATA_SLOT);
      Agree(d, e, off, ReadData(d, off).pos)
  {
    hide Word32, ReadData, DataOk, OnlySlots;
    assert ClassOk(d, j);
    var off := Word32(d, Def(d, j) + DATA_SLOT);
    forall k | off <= k < ReadData(d, off).pos && k < |d| && k < |e| ensures d[k] == e[k] {
      forall j' | 0 <= j' < i ensures !InSlot(DefsOff(d), j', k) { DefBelow(d, j'); }
      OutsideSlots(d, e, i, k);
    }
  }

  lemma DefBelow(d: Image, j: nat)
    requires j < DefsSize(d)
    ensures DefsOff(d) <= Def(d, j) && Def(d, j) + CLASS_DEF <= Def(d, DefsSize(d))
  {
  }

  lemma SameRewrite(d: Image, e: Image, off: nat, offs: map<nat, u32>)
    requires DataOk(d, off) && |d| == |e| && Agree(d, e, off, ReadData(d, off).pos)
    ensures Rewrite(e, off, offs) == Rewrite(d, off, offs)
  {
    hide ReadN, ScanN, OkN, Patch, Hits, Directs, Virtuals;
    DataFrame(d, e, off);
    ScanIsRead(d, off);
    ScanIsRead(e, off);
  }

  lemma RelinkStep(d: Image, offs: map<nat, u32>, l: Link, i: nat)
    requires WellFormed(d) && i < DefsSize(d) && LoopInv(d, offs, l, i)
    requires |d| + |RelinkClass(l, offs, Def(d, i)).tail| < TWO32
    ensures LoopInv(d, offs, RelinkClass(l, offs, Def(d, i)), i + 1)
  {
    hide Word32, DataOk, Rewrite, Done, RelinkClass, ReadData;
    DefInside(d, i);
    var r := RelinkClass(l, offs, Def(d, i));
    RelinkClassFrame(l, offs, Def(d, i));
    SlotsGrow(d, l.d, r.d, i);
    CurrentDone(d, offs, l, i);
    forall j | 0 <= j < i ensures Done(d, offs, r, j) {
      assert Done(d, offs, l, j);
      DoneStays(d, offs, l, r, i, j);
    }
  }

  lemma CurrentDone(d: Image, offs: map<nat, u32>, l: Link, i: nat)
    requires WellFormed(d) && i < DefsSize(d) && OnlySlots(d, l.d, i)
    requires |d| + |RelinkClass(l, offs, Def(d, i)).tail| < TWO32
    ensures Done(d, offs, RelinkClass(l, offs, Def(d, i)), i)
  {
    hide Word32, ReadData, DataOk, Rewrite, OnlySlots, RelinkClass, Done;
    SlotsSize(d, l.d, i);
    SlotUntouched(d, l.d, i, i);
    assert ClassOk(d, i);
    var off := Word32(d, Def(d, i) + DATA_SLOT);
    if off != 0 {
      DataUntouched(d, l.d, i, i);
      SameRewrite(d, l.d, off, offs);
    }
    StepDone(d, offs, l, i);
  }

  lemma SlotsGrow(d: Image, e: Image, f: Image, i: nat)
    requires OnlySlots(d, e, i) && |f| == |e|
    requires forall k :: 0 <= k < |e| && !(Def(d, i) + DATA_SLOT <= k < Def(d, i) + DATA_SLOT + 4) ==> f[k] == e[k]
    ensures OnlySlots(d, f, i + 1)
  {
    forall k | 0 <= k < |d| && f[k] != d[k] ensures exists j :: 0 <= j < i + 1 && InSlot(DefsOff(d), j, k) {
      if e[k] != d[k] {
        var j :| 0 <= j < i && InSlot(DefsOff(d), j, k);
      } else {
        assert InSlot(DefsOff(d), i, k);
      }
    }
  }

  lemma StepDone(d: Image, offs: map<nat, u32>, l: Link, i: nat)
    requires Accepts(d) && i < DefsSize(d) && |l.d| == |d|
    requires var off := Word32(d, Def(d, i) + DATA_SLOT);
      && Word32(l.d, Def(d, i) + DATA_SLOT) == off
      && (off != 0 ==> off < |d| && Rewrite(l.d, off, offs) == Rewrite(d, off, offs))
    requires |d| + |RelinkClass(l, offs, Def(d, i)).tail| < TWO32
    ensures Done(d, offs, RelinkClass(l, offs, Def(d, i)), i)
  {
    hide Word32, Put32, Rewrite, WriteN, Pad;
    DefInside(d, i);
    var off := Word32(d, Def(d, i) + DATA_SLOT);
    if off != 0 && Rewrite(d, off, offs).hits > 0 {
      var tail := l.tail + Pad(|l.d| + |l.tail|);
      GetPut32(l.d, Def(d, i) + DATA_SLOT, |d| + |tail|);
    }
  }

  lemma DoneStays(d: Image, offs: map<nat, u32>, l: Link, r: Link, i: nat, j: nat)
    requires Accepts(d) && j < i < DefsSize(d) && |l.d| == |r.d| == |d| && l.tail <= r.tail
    requires forall k :: 0 <= k < |d| && !(Def(d, i) + DATA_SLOT <= k < Def(d, i) + DATA_SLOT + 4) ==> r.d[k] == l.d[k]
    requires Done(d, offs, l, j)
    ensures Done(d, offs, r, j)
  {
    hide Word32, Rewrite, WriteN;
    DefInside(d, i);
    DefsApart(d, j, i);
    WordFrame(l.d, r.d, Def(d, j) + DATA_SLOT);
    var now := Word32(l.d, Def(d, j) + DATA_SLOT);
    var bs := WriteN(Rewrite(d, Word32(d, Def(d, j) + DATA_SLOT), offs).vals);
    if now >= |d| && At(l.tail, now - |d|, bs) {
      assert r.tail[now - |d|..now - |d| + |bs|] == l.tail[now - |d|..now - |d| + |bs|];
    }
  }

  lemma {:induction false} RelinkLoop(d: Image, offs: map<nat, u32>, l: Link, i: nat)
    requires WellFormed(d) && i <= DefsSize(d) && LoopInv(d, offs, l, i)
    requires |d| + |RelinkFrom(l, offs, DefsOff(d), i, DefsSize(d)).tail| < TWO32
    ensures LoopInv(d, offs, RelinkFrom(l, offs, DefsOff(d), i, DefsSize(d)), DefsSize(d))
    decreases DefsSize(d) - i
  {
    hide WellFormed, RelinkClass;
    DefsInside(d);
    if i < DefsSize(d) {
      var m := RelinkClass(l, offs, Def(d, i));
      RelinkFrame(m, offs, DefsOff(d), i + 1, DefsSize(d));
      hide LoopInv;
      RelinkStep(d, offs, l, i);
      LoopSize(d, offs, m, i + 1);
      RelinkLoop(d, offs, m, i + 1);
    }
  }

  lemma DefsInside(d: Image)
    requires WellFormed(d)
    ensures DefsOff(d) + DefsSize(d) * CLASS_DEF <= |d| && HEADER <= |d|
    ensures DefsSize(d) > 0 ==> HEADER <= DefsOff(d)
  {
  }

  lemma LoopSize(d: Image, offs: map<nat, u32>, l: Link, i: nat)
    requires LoopInv(d, offs, l, i)
    ensures |l.d| == |d|
  {
  }

  // ----- the finished file -----

  lemma HeaderWord(d: Image, tail: seq<byte>, h: Hashes, o: nat)
    requires |d| >= HEADER && HashesOk(h) && o + 4 <= |d|
    requires o + 4 <= 0x08 || (0x24 <= o && o + 4 <= 0x68) || 0x6c <= o
    ensures Word32(Finish(d, tail, h), o) == Word32(d, o)
  {
    hide Word32, Finish;
    var e := Finish(d, tail, h);
    forall k | o <= k < o + 4 ensures d[k] == e[k] { FinishFrame(d, tail, h, k); }
    WordFrame(d, e, o);
  }

  lemma TailReads(d: Image, tail: seq<byte>, h: Hashes, p: nat, bs: seq<byte>)
    requires |d| >= HEADER && HashesOk(h) && |d| <= p && At(tail, p - |d|, bs)
    ensures At(Finish(d, tail, h), p, bs)
  {
    hide Finish;
    var e := Finish(d, tail, h);
    forall k | p <= k < p + |bs| ensures e[k] == tail[k - |d|] { FinishFrame(d, tail, h, k); }
    assert e[p..p + |bs|] == tail[p - |d|..p - |d| + |bs|];
  }

  /** Everything about the rebuilt file that its reader looks at. */
  ghost predicate Rebuilt(d: Image, codes: Codes, h: Hashes, e: Image)
    requires HashesOk(h)
  {
    e == Build(d, codes, h) && WellFormed(d) && |e| < TWO32
  }

  lemma FinalLoop(d: Image, codes: Codes, h: Hashes, e: Image)
    requires HashesOk(h) && Rebuilt(d, codes, h, e)
    ensures LoopInv(d, Offsets(d, codes), Linked(d, codes), DefsSize(d))
    ensures |Linked(d, codes).d| == |d| && e == Finish(Linked(d, codes).d, Linked(d, codes).tail, h)
    ensures |e| == |d| + |Linked(d, codes).tail|
  {
    hide PlaceAll, RelinkFrom, Finish, Done;
    var placed := PlaceAll(|d|, Placed([], map[]), Ascending(codes.Keys), codes);
    var l0 := Link(d, placed.tail, 0, 0);
    DefsInside(d);
    RelinkLoop(d, placed.offs, l0, 0);
  }

  // The class definition table is where it was and has the same words.
  lemma SameDefs(d: Image, codes: Codes, h: Hashes, e: Image)
    requires HashesOk(h) && Rebuilt(d, codes, h, e)
    ensures DefsOff(e) == DefsOff(d) && DefsSize(e) == DefsSize(d)
    ensures forall i :: Def(e, i) == Def(d, i)
  {
    hide Word32, Finish, Linked, Build;
    FinalLoop(d, codes, h, e);
    var l := Linked(d, codes);
    hide Done;
    DefsInside(d);
    forall o | o in {0x60, 0x64} ensures Word32(e, o) == Word32(d, o) {
      HeaderWord(l.d, l.tail, h, o);
      forall k | o <= k < o + 4 ensures d[k] == l.d[k] {
        forall j | 0 <= j < DefsSize(d) ensures !InSlot(DefsOff(d), j, k) { DefBelow(d, j); }
        OutsideSlots(d, l.d, DefsSize(d), k);
      }
      WordFrame(d, l.d, o);
    }
  }

  lemma DefWords(d: Image, codes: Codes, h: Hashes, e: Image, i: nat, o: nat)
    requires HashesOk(h) && Rebuilt(d, codes, h, e) && i < DefsSize(d) && o in {0, 4, 8}
    ensures Word32(e, Def(d, i) + o) == Word32(d, Def(d, i) + o)
  {
    hide Word32, Finish, Linked, Build;
    FinalLoop(d, codes, h, e);
    hide Done;
    var l := Linked(d, codes);
    DefsInside(d);
    DefBelow(d, i);
    var a := Def(d, i) + o;
    HeaderWord(l.d, l.tail, h, a);
    forall k | a <= k < a + 4 ensures d[k] == l.d[k] {
      forall j | 0 <= j < DefsSize(d) ensures !InSlot(DefsOff(d), j, k) {
        if j < i { DefsApart(d, j, i); } else if i < j { DefsApart(d, i, j); }
      }
      OutsideSlots(d, l.d, DefsSize(d), k);
    }
    WordFrame(d, l.d, a);
  }

  lemma UntouchedData(d: Image, codes: Codes, h: Hashes, e: Image, i: nat)
    requires HashesOk(h) && Rebuilt(d, codes, h, e) && i < DefsSize(d)
    requires Word32(d, Def(d, i) + DATA_SLOT) != 0
    ensures var off := Word32(d, Def(d, i) + DATA_SLOT);
      MethodsAt(e, off) == MethodsAt(d, off)
  {
    hide Word32, Finish, Linked, Build, ReadData, DataOk, ReadN;
    FinalLoop(d, codes, h, e);
    hide Done;
    var l := Linked(d, codes);
    var off := Word32(d, Def(d, i) + DATA_SLOT);
    assert ClassOk(d, i);
    DataUntouched(d, l.d, DefsSize(d), i);
    forall k | off <= k < ReadData(d, off).pos && k < |d| ensures d[k] == e[k] {
      FinishFrame(l.d, l.tail, h, k);
    }
    DataFrame(d, e, off);
  }

  lemma SlotReads(d: Image, codes: Codes, h: Hashes, e: Image, i: nat)
    requires HashesOk(h) && Rebuilt(d, codes, h, e) && i < DefsSize(d)
    ensures Word32(e, Def(d, i) + DATA_SLOT) == Word32(Linked(d, codes).d, Def(d, i) + DATA_SLOT)
    ensures Done(d, Offsets(d, codes), Linked(d, codes), i)
  {
    hide Word32, Finish, Linked, Build, Offsets, Done;
    FinalLoop(d, codes, h, e);
    DefsInside(d);
    DefBelow(d, i);
    HeaderWord(Linked(d, codes).d, Linked(d, codes).tail, h, Def(d, i) + DATA_SLOT);
  }

  lemma ClassMethods(d: Image, codes: Codes, h: Hashes, e: Image, i: nat)
    requires HashesOk(h) && Rebuilt(d, codes, h, e) && i < DefsSize(d)
    ensures var offs := Offsets(d, codes);
      var off, now := Word32(d, Def(d, i) + DATA_SLOT), Word32(e, Def(d, i) + DATA_SLOT);
      MethodsAt(e, now) == (RelinkAll(MethodsAt(d, off).0, offs), RelinkAll(MethodsAt(d, off).1, offs)) &&
      (now == off <==> NoneRecovered(MethodsAt(d, off).0, offs) && NoneRecovered(MethodsAt(d, off).1, offs))
  {
    hide Word32, Finish, Linked, Build, Offsets, ReadData, DataOk, Rewrite, RelinkAll, WriteN, MethodsAt, At,
      NoneRecovered;
    var offs := Offsets(d, codes);
    var off, now := Word32(d, Def(d, i) + DATA_SLOT), Word32(e, Def(d, i) + DATA_SLOT);
    FinalLoop(d, codes, h, e);
    hide LoopInv;
    SlotReads(d, codes, h, e, i);
    assert ClassOk(d, i);
    if off == 0 {
      NoData(d, e, offs);
    } else {
      LeftAloneIff(d, off, offs);
      if Rewrite(d, off, offs).hits == 0 {
        UntouchedData(d, codes, h, e, i);
        Unrecovered(MethodsAt(d, off).0, offs);
        Unrecovered(MethodsAt(d, off).1, offs);
      } else {
        TailReads(Linked(d, codes).d, Linked(d, codes).tail, h, now, WriteN(Rewrite(d, off, offs).vals));
        RewrittenNonEmpty(d, off, offs);
        BlockInside(e, now, Rewrite(d, off, offs).vals);
        RewrittenReads(d, off, offs, e, now);
      }
    }
  }

  lemma RewrittenNonEmpty(d: Image, off: nat, offs: map<nat, u32>)
    requires DataOk(d, off)
    ensures Rewrite(d, off, offs).vals != []
  {
    hide ReadN, OkN, Rewrite, Directs, Virtuals, Patch, Hits;
    RewrittenParts(d, off, offs);
  }

  lemma BlockInside(e: Image, p: nat, vals: seq<u32>)
    requires At(e, p, WriteN(vals)) && vals != []
    ensures p < |e|
  {
  }

  lemma NoData(d: Image, e: Image, offs: map<nat, u32>)
    ensures MethodsAt(d, 0) == MethodsAt(e, 0) == ([], [])
    ensures RelinkAll([], offs) == [] && NoneRecovered([], offs)
  {
  }

  /** The class the reader must find in place of c. */
  ghost predicate IsRelinked(c: Class, c': Class, offs: map<nat, u32>) {
    && c'.classIdx == c.classIdx && c'.access == c.access && c'.superIdx == c.superIdx
    && c'.direct == RelinkAll(c.direct, offs) && c'.virt == RelinkAll(c.virt, offs)
    && (c'.dataOff == c.dataOff <==> NoneRecovered(c.direct, offs) && NoneRecovered(c.virt, offs))
  }

  /** Read-back. For every well-formed DEX and every set of recovered code whose result
      stays below 4 GiB, the reader accepts the rebuilt file and finds the same classes
      in the same order, with the same methods, except that each recovered native method
      has its native flag cleared and its code offset set; a class whose methods were
      not recovered is not even repointed. */
  lemma ReadBack(d: Image, codes: Codes, h: Hashes)
    requires HashesOk(h) && WellFormed(d) && |Build(d, codes, h)| < TWO32
    ensures var e := Build(d, codes, h);
      && Accepts(e) && DefsSize(e) == DefsSize(d)
      && forall i :: 0 <= i < DefsSize(d) ==> IsRelinked(ReadClass(d, i), ReadClass(e, i), Offsets(d, codes))
  {
    hide Word32, Finish, Linked, Build, Offsets, RelinkAll, MethodsAt, NoneRecovered;
    var e := Build(d, codes, h);
    assert Rebuilt(d, codes, h, e);
    SameDefs(d, codes, h, e);
    StillAccepted(d, codes, h, e);
    forall i | 0 <= i < DefsSize(d) ensures IsRelinked(ReadClass(d, i), ReadClass(e, i), Offsets(d, codes)) {
      DefWords(d, codes, h, e, i, 0);
      DefWords(d, codes, h, e, i, 4);
      DefWords(d, codes, h, e, i, 8);
      ClassMethods(d, codes, h, e, i);
    }
  }

  lemma StillAccepted(d: Image, codes: Codes, h: Hashes, e: Image)
    requires HashesOk(h) && Rebuilt(d, codes, h, e) && DefsOff(e) == DefsOff(d) && DefsSize(e) == DefsSize(d)
    ensures Accepts(e)
  {
    hide Word32, Finish, Linked, Build;
    FinalLoop(d, codes, h, e);
    hide Done;
    var l := Linked(d, codes);
    DefsInside(d);
    forall k | 0 <= k < 4 ensures e[k] == d[k] {
      FinishFrame(l.d, l.tail, h, k);
      forall j | 0 <= j < DefsSize(d) ensures !InSlot(DefsOff(d), j, k) { DefBelow(d, j); }
      OutsideSlots(d, l.d, DefsSize(d), k);
    }
    assert e[..4] == d[..4];
  }

  /** Every recovered code item is in the output: four-byte aligned, at the offset the
      relinked methods carry, byte for byte. */
  lemma CodeInPlace(d: Image, codes: Codes, h: Hashes, key: nat)
    requires HashesOk(h) && WellFormed(d) && |Build(d, codes, h)| < TWO32 && key in codes
    ensures key in Offsets(d, codes)
    ensures var pos := Offsets(d, codes)[key];
      pos % 4 == 0 && |d| <= pos && At(Build(d, codes, h), pos, codes[key])
    ensures Offsets(d, codes).Keys == codes.Keys
  {
    hide Word32, Finish, Build, PlaceAll, RelinkFrom, At;
    var e := Build(d, codes, h);
    assert Rebuilt(d, codes, h, e);
    var keys := Ascending(codes.Keys);
    var placed := PlaceAll(|d|, Placed([], map[]), keys, codes);
    FinalLoop(d, codes, h, e);
    hide LoopInv;
    DefsInside(d);
    RelinkFrame(Link(d, placed.tail, 0, 0), placed.offs, DefsOff(d), 0, DefsSize(d));
    AscendingIncreases(codes.Keys);
    PlacedCode(|d|, Placed([], map[]), keys, codes, key);
    PlaceKeeps(|d|, Placed([], map[]), keys, codes);
    HoldsLonger(|d|, placed.tail, Linked(d, codes).tail, placed.offs[key], codes[key]);
    TailReads(Linked(d, codes).d, Linked(d, codes).tail, h, placed.offs[key], codes[key]);
  }

  // ----- the frame, in terms of the input -----

  lemma SameWordSameBytes(d: Image, e: Image, o: nat, k: nat)
    requires o + 4 <= |d| && o + 4 <= |e| && Word32(d, o) == Word32(e, o) && o <= k < o + 4
    ensures d[k] == e[k]
  {
    hide LE.Decode;
    LE.DecodeInjective(d[o..o + 4], e[o..o + 4]);
    assert d[k] == d[o..o + 4][k - o] && e[k] == e[o..o + 4][k - o];
  }

  /** Byte k is in the data offset of class j, which has a method to recover. */
  ghost predicate InRecoveredSlot(d: Image, offs: map<nat, u32>, j: nat, k: nat) {
    var c := ReadClass(d, j);
    InSlot(DefsOff(d), j, k) && (!NoneRecovered(c.direct, offs) || !NoneRecovered(c.virt, offs))
  }

  /** For a well-formed DEX, a changed original byte outside the three header fields is
      in the data offset of a class with a recovered method. */
  lemma OnlyRecoveredClassesMove(d: Image, codes: Codes, h: Hashes, k: nat)
    requires HashesOk(h) && WellFormed(d) && |Build(d, codes, h)| < TWO32 && k < |d|
    requires Build(d, codes, h)[k] != d[k] && !HeaderField(k)
    ensures exists j :: 0 <= j < DefsSize(d) && InRecoveredSlot(d, Offsets(d, codes), j, k)
  {
    hide Word32, Finish, Linked, Build, Offsets, RelinkAll, MethodsAt, NoneRecovered, Patches, RelinkFrom;
    var e := Build(d, codes, h);
    assert Rebuilt(d, codes, h, e);
    BuildFrame(d, codes, h, k);
    var j :| 0 <= j < DefsSize(d) && InPatchedSlot(Placing(d, codes), Offsets(d, codes), DefsOff(d), 0, j, k);
    SameDefs(d, codes, h, e);
    FinalLoop(d, codes, h, e);
    DefInside(d, j);
    ReadBack(d, codes, h);
    var c, c' := ReadClass(d, j), ReadClass(e, j);
    assert IsRelinked(c, c', Offsets(d, codes));
    if c'.dataOff == c.dataOff { SameWordSameBytes(d, e, Def(d, j) + DATA_SLOT, k); }
    assert InRecoveredSlot(d, Offsets(d, codes), j, k);
  }

  // ----- the size words of the header -----

  lemma FinishSizes(d: Image, tail: seq<byte>, h: Hashes)
    requires |d| >= HEADER && HashesOk(h)
    ensures var e := Finish(d, tail, h);
      && Word32(e, 0x20) == (|d| + |tail|) % TWO32
      && Word32(e, 0x68) == (|d| + |tail| - Word32(d, 0x6c)) % TWO32
      && Word32(e, 0x6c) == Word32(d, 0x6c)
  {
    hide Word32, Put32, LE.Splice;
    var d1 := d + tail;
    var d2 := Put32(d1, 0x20, |d1| % TWO32);
    var d3 := Put32(d2, 0x68, (|d2| - Word32(d2, 0x6c)) % TWO32);
    var d4 := LE.Splice(d3, 0x0c, h.sha1(d3[0x20..]));
    var e := Put32(d4, 0x08, h.adler(d4[0x0c..]));
    GetPut32(d1, 0x20, |d1| % TWO32);
    GetPut32(d2, 0x68, (|d2| - Word32(d2, 0x6c)) % TWO32);
    WordFrame(d, d2, 0x6c);
    WordFrame(d2, e, 0x20);
    WordFrame(d3, e, 0x68);
    WordFrame(d, e, 0x6c);
  }

  lemma Complement(n: int, w: int)
    ensures ((n - w) % TWO32 + w) % TWO32 == n % TWO32
  {
  }

  /** The header of a rebuilt file tells the truth about its size, for every accepted
      input: file_size is the length of the file, and data_off plus data_size reaches
      its end. */
  lemma SizesTold(d: Image, codes: Codes, h: Hashes)
    requires HashesOk(h) && Accepts(d) && |Build(d, codes, h)| < TWO32
    ensures var e := Build(d, codes, h);
      Word32(e, 0x20) == |e| && (Word32(e, 0x68) + Word32(e, 0x6c)) % TWO32 == |e|
  {
    hide Word32, Finish, Linked;
    var l := Linked(d, codes);
    FinishSizes(l.d, l.tail, h);
    Complement(|l.d| + |l.tail|, Word32(l.d, 0x6c));
  }
}

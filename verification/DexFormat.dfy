// The Dalvik Executable format, item by item, against the reader: words, strings, types,
// method identifiers, class data and code items, each found where the format puts it.

module DexFormat {
  import opened Common
  import opened Uleb128
  import opened LebValues
  import opened DexModel
  import opened DexRebuild
  import opened DexReadBack
  import LE = LittleEndian
  import DexCode
  import DalvikVm
  import Sim = DalvikSim
  import Asm = DalvikAsm

  // ----- words -----

  /** Least significant byte first; zero outside the file. */
  lemma WordBytes(d: Image, o: nat)
    ensures Word32(d, o) ==
      if o + 4 > |d| then 0
      else LE.Byte(d, o) + 0x100 * LE.Byte(d, o + 1) + 0x1_0000 * LE.Byte(d, o + 2) + 0x100_0000 * LE.Byte(d, o + 3)
    ensures Word16(d, o) == if o + 2 > |d| then 0 else LE.Byte(d, o) + 0x100 * LE.Byte(d, o + 1)
  {
    hide LE.Decode;
    if o + 4 <= |d| {
      LE.DecodeAt(d, o, 4);
      LE.DecodeAt(d, o + 1, 3);
      LE.DecodeAt(d, o + 2, 2);
      LE.DecodeAt(d, o + 3, 1);
      LE.DecodeAt(d, o + 4, 0);
    }
  }

  // ----- header_item -----

  const MAGIC_TEXT: string := "dex\n"

  /** A file is taken for a DEX if and only if it has a header that starts with the magic
      text and its class definitions, 32 bytes each, end inside the file; nothing is built
      from any other file. */
  lemma AcceptedIff(d: Image, codes: Codes, h: Hashes)
    requires HashesOk(h)
    ensures Accepts(d) <==>
      && |d| >= 0x70 && (forall i :: 0 <= i < 4 ==> d[i] as char == MAGIC_TEXT[i])
      && Word32(d, 0x64) + 32 * Word32(d, 0x60) <= |d|
    ensures Build(d, codes, h) == [] <==> !Accepts(d)
  {
    hide Word32, Linked, Finish;
    if |d| >= 0x70 {
      assert d[..4] == MAGIC <==> forall i :: 0 <= i < 4 ==> d[i] == MAGIC[i];
      assert forall i :: 0 <= i < 4 ==> MAGIC[i] as char == MAGIC_TEXT[i];
    }
  }

  // ----- string_id_item, string_data_item -----

  lemma {:induction false} TextFound(d: Image, p: nat, text: Text)
    requires At(d, p, text + [0]) && 0 !in text
    ensures TextFrom(d, p) == text
    decreases |text|
  {
    if text == [] {
      AtHead(d, p, 0, []);
    } else {
      assert text + [0] == [text[0]] + (text[1..] + [0]);
      AtHead(d, p, text[0], text[1..] + [0]);
      TextFound(d, p + 1, text[1..]);
    }
  }

  /** String idx: its entry in the table at header word 0x3c leads to a number of n bytes,
      the text and a zero. */
  ghost predicate StringIs(d: Image, idx: u32, n: nat, text: Text) {
    var slot := Word32(d, 0x3c) + 4 * idx;
    && idx < Word32(d, 0x38) && slot < TWO32
    && NumberAt(d, Word32(d, slot), n) && n <= 5
    && 0 !in text && At(d, Word32(d, slot) + n, text + [0])
  }

  lemma StringFound(d: Image, idx: u32, n: nat, text: Text)
    requires StringIs(d, idx, n, text)
    ensures StringAt(d, idx) == text
  {
    hide Word32, Read, TextFrom, Digits;
    var off := Word32(d, Word32(d, 0x3c) + 4 * idx);
    UnsignedValue(d, off, n);
    TextFound(d, off + n, text);
  }

  // ----- type_id_item -----

  ghost predicate TypeIs(d: Image, idx: u32, n: nat, text: Text) {
    var slot := Word32(d, 0x44) + 4 * idx;
    && idx < Word32(d, 0x40) && idx != 0xffff_ffff && slot < TWO32
    && StringIs(d, Word32(d, slot), n, text)
  }

  lemma TypeFound(d: Image, idx: u32, n: nat, text: Text)
    requires TypeIs(d, idx, n, text)
    ensures TypeAt(d, idx) == text
  {
    hide Word32, StringIs, StringAt;
    StringFound(d, Word32(d, Word32(d, 0x44) + 4 * idx), n, text);
  }

  // ----- method_id_item, proto_id_item -----

  /** Method idx: eight bytes in the table at header word 0x5c. A half-word for the class, a
      half-word for the prototype, whose first word names its short form, a word for the
      name. */
  ghost predicate MethodIs(d: Image, idx: u32, a: nat, cls: Text, b: nat, name: Text, c: nat, sig: Text) {
    var o := Word32(d, 0x5c) + 8 * idx;
    && idx < Word32(d, 0x58) && o + 8 <= |d|
    && TypeIs(d, Word16(d, o), a, cls)
    && StringIs(d, Word32(d, o + 4), b, name)
    && Word16(d, o + 2) < Word32(d, 0x48)
    && StringIs(d, Word32(d, Word32(d, 0x4c) + 12 * Word16(d, o + 2)), c, sig)
  }

  /** The reader finds the names the format says a method has. */
  lemma MethodFound(d: Image, idx: u32, a: nat, cls: Text, b: nat, name: Text, c: nat, sig: Text)
    requires MethodIs(d, idx, a, cls, b, name, c, sig)
    ensures NameAt(d, idx) == MethodName(cls, name, sig)
  {
    hide Word32, Word16, StringIs, StringAt, TypeIs, TypeAt;
    var o := Word32(d, 0x5c) + 8 * idx;
    TypeFound(d, Word16(d, o), a, cls);
    StringFound(d, Word32(d, o + 4), b, name);
    StringFound(d, Word32(d, Word32(d, 0x4c) + 12 * Word16(d, o + 2)), c, sig);
  }

  lemma NothingFound(d: Image, idx: u32)
    ensures idx >= Word32(d, 0x58) ==> NameAt(d, idx) == MethodName([], [], [])
    ensures idx >= Word32(d, 0x38) ==> StringAt(d, idx) == []
    ensures idx >= Word32(d, 0x40) || idx == 0xffff_ffff ==> TypeAt(d, idx) == []
  {
    hide Word32, Word16;
  }

  // ----- class_def_item -----

  /** The words of class definition i, 32 bytes each from the offset in header word 0x64. */
  lemma DefLayout(d: Image, i: nat)
    ensures var o, c := Word32(d, 0x64) + 32 * i, ReadClass(d, i);
      && c.classIdx == Word32(d, o) && c.access == Word32(d, o + 4) && c.superIdx == Word32(d, o + 8)
      && c.dataOff == Word32(d, o + 24)
      && (c.direct, c.virt) == MethodsAt(d, Word32(d, o + 24))
  {
    hide Word32, MethodsAt;
  }

  // ----- class_data_item -----

  /** Methods as the format lists them: index difference, access flags, code offset. */
  function MethodNumbers(ms: seq<Method>, acc: u32): (vals: seq<u32>)
    ensures |vals| == 3 * |ms|
  {
    if ms == [] then []
    else [(ms[0].idx - acc) % TWO32, ms[0].access, ms[0].codeOff] + MethodNumbers(ms[1..], ms[0].idx)
  }

  /** Class data: four counts, two numbers a field, three a method. */
  function ClassData(fields: seq<u32>, statics: u32, instances: u32, direct: seq<Method>, virt: seq<Method>): seq<u32>
    requires |direct| < TWO32 && |virt| < TWO32
  {
    [statics, instances, |direct|, |virt|] + fields + MethodNumbers(direct, 0) + MethodNumbers(virt, 0)
  }

  lemma IndexBack(acc: u32, idx: u32)
    ensures (acc + (idx - acc) % TWO32) % TWO32 == idx
  {
    assert (idx - acc) % TWO32 == if idx >= acc then idx - acc else idx - acc + TWO32;
  }

  lemma {:induction false} NumbersRead(ms: seq<Method>, acc: u32)
    ensures Methods(MethodNumbers(ms, acc), acc) == ms
    decreases |ms|
  {
    if ms != [] {
      var vals := MethodNumbers(ms, acc);
      assert vals[3..] == MethodNumbers(ms[1..], ms[0].idx);
      IndexBack(acc, ms[0].idx);
      NumbersRead(ms[1..], ms[0].idx);
      assert [ms[0]] + ms[1..] == ms;
    }
  }

  lemma DataParts(fields: seq<u32>, statics: u32, instances: u32, direct: seq<Method>, virt: seq<Method>)
    requires |direct| < TWO32 && |virt| < TWO32
    ensures var vals := ClassData(fields, statics, instances, direct, virt);
      var c := [statics, instances, |direct|, |virt|];
      && vals[..4] == c && Fits(vals, c)
      && Directs(vals, c) == MethodNumbers(direct, 0) && Virtuals(vals, c) == MethodNumbers(virt, 0)
  {
    hide MethodNumbers;
  }

  /** Whatever fields and methods class data lists, the reader finds those methods. */
  lemma DataFound(d: Image, off: nat, fields: seq<u32>, statics: u32, instances: u32,
                  direct: seq<Method>, virt: seq<Method>)
    requires |direct| < TWO32 && |virt| < TWO32 && 0 < off < |d|
    requires statics + instances < TWO32 && |fields| == 2 * statics + 2 * instances
    requires At(d, off, WriteN(ClassData(fields, statics, instances, direct, virt)))
    ensures MethodsAt(d, off) == (direct, virt)
  {
    hide ReadN, At, WriteN, Methods, MethodNumbers, Directs, Virtuals;
    var vals := ClassData(fields, statics, instances, direct, virt);
    DataParts(fields, statics, instances, direct, virt);
    WriteNPrefix(vals, d, off);
    ReadWriteN(d, off, vals);
    DataLength(fields, statics, instances, direct, virt);
    NumbersRead(direct, 0);
    NumbersRead(virt, 0);
  }

  lemma DataLength(fields: seq<u32>, statics: u32, instances: u32, direct: seq<Method>, virt: seq<Method>)
    requires |direct| < TWO32 && |virt| < TWO32
    requires statics + instances < TWO32 && |fields| == 2 * statics + 2 * instances
    ensures |ClassData(fields, statics, instances, direct, virt)| == ReadTotal([statics, instances, |direct|, |virt|])
  {
    hide MethodNumbers;
  }

  // ----- code_item -----

  /** Sixteen bytes and the instructions: registers, arguments, outgoing arguments, no tries,
      no debug information, the number of code units. */
  lemma ItemLayout(regs: u16, ins: u16, outs: u16, units: seq<u16>)
    requires |units| < TWO32
    ensures var ci := DexCode.Item(regs, ins, outs, units);
      && |ci| == 16 + 2 * |units|
      && Word16(ci, 0) == regs && Word16(ci, 2) == ins && Word16(ci, 4) == outs && Word16(ci, 6) == 0
      && Word32(ci, 8) == 0 && Word32(ci, 12) == |units|
      && forall k :: 0 <= k < |units| ==> Word16(ci, 16 + 2 * k) == units[k]
  {
    hide Asm.Bytes, Word16, Word32;
    var u := DexCode.HeadUnits(regs, ins, outs, |units|) + units;
    var ci := DexCode.Item(regs, ins, outs, units);
    assert At(ci, 0, Asm.Bytes(u)) by { assert ci[0..|ci|] == ci; }
    UnitWords(ci, u);
    forall k | 0 <= k < |units| ensures Word16(ci, 16 + 2 * k) == units[k] {
      assert Word16(ci, 2 * (8 + k)) == u[8 + k];
    }
    assert Word16(ci, 2 * 0) == u[0] && Word16(ci, 2 * 1) == u[1] && Word16(ci, 2 * 2) == u[2];
    assert Word16(ci, 2 * 3) == u[3] && Word16(ci, 2 * 4) == u[4] && Word16(ci, 2 * 5) == u[5];
    assert Word16(ci, 2 * 6) == u[6] && Word16(ci, 2 * 7) == u[7];
    TwoHalves(ci, 8);
    TwoHalves(ci, 12);
  }

  lemma UnitWords(ci: seq<byte>, u: seq<u16>)
    requires At(ci, 0, Asm.Bytes(u))
    ensures forall k :: 0 <= k < |u| ==> Word16(ci, 2 * k) == u[k]
  {
    hide Asm.Bytes, Word16, At;
    forall k | 0 <= k < |u| ensures Word16(ci, 2 * k) == u[k] {
      Sim.UnitInImage(ci, 0, u, k);
    }
  }

  lemma TwoHalves(d: Image, o: nat)
    requires o + 4 <= |d|
    ensures Word32(d, o) == Word16(d, o) + 0x1_0000 * Word16(d, o + 2)
  {
    hide Word32, Word16;
    WordBytes(d, o);
    WordBytes(d, o + 2);
  }

  // ----- the rebuilt file -----

  /** The header's signature and checksum are over the rest of the finished file. */
  lemma HashesTold(d: Image, codes: Codes, h: Hashes)
    requires HashesOk(h) && Accepts(d)
    ensures var e := Build(d, codes, h);
      |e| >= 0x70 && e[0x0c..0x20] == h.sha1(e[0x20..]) && Word32(e, 0x08) == h.adler(e[0x0c..])
  {
    hide Linked, Finish, Word32;
    var l := Linked(d, codes);
    assert |Build(d, codes, h)| >= 0x70;
    BuildVerifies(d, codes, h);
  }

  /** What has become of a method: a native one with recovered code is no longer native and
      its code is in the file, four-byte aligned; any other is as it was. */
  ghost predicate MethodTold(was: Method, now: Method, codes: Codes, e: Image) {
    && now.idx == was.idx
    && if was.access / 0x100 % 2 == 1 && was.idx in codes then
         now.access == was.access - 0x100 && now.codeOff % 4 == 0 && At(e, now.codeOff, codes[was.idx])
       else now == was
  }

  lemma MethodsTold(d: Image, codes: Codes, h: Hashes, i: nat)
    requires HashesOk(h) && WellFormed(d) && |Build(d, codes, h)| < TWO32 && i < DefsSize(d)
    ensures var e := Build(d, codes, h);
      var was, now := ReadClass(d, i), ReadClass(e, i);
      && now.classIdx == was.classIdx && now.access == was.access && now.superIdx == was.superIdx
      && |now.direct| == |was.direct| && |now.virt| == |was.virt|
      && (forall j :: 0 <= j < |was.direct| ==> MethodTold(was.direct[j], now.direct[j], codes, e))
      && (forall j :: 0 <= j < |was.virt| ==> MethodTold(was.virt[j], now.virt[j], codes, e))
  {
    hide WellFormed, Build, ReadClass, Offsets, At, MethodTold;
    var e := Build(d, codes, h);
    var was, now := ReadClass(d, i), ReadClass(e, i);
    ReadBack(d, codes, h);
    forall j | 0 <= j < |was.direct| ensures MethodTold(was.direct[j], now.direct[j], codes, e) {
      Told(d, codes, h, was.direct[j]);
    }
    forall j | 0 <= j < |was.virt| ensures MethodTold(was.virt[j], now.virt[j], codes, e) {
      Told(d, codes, h, was.virt[j]);
    }
  }

  lemma Told(d: Image, codes: Codes, h: Hashes, was: Method)
    requires HashesOk(h) && WellFormed(d) && |Build(d, codes, h)| < TWO32
    ensures MethodTold(was, Relink(was, Offsets(d, codes)), codes, Build(d, codes, h))
  {
    hide WellFormed, Build, Offsets, At;
    OffsetsAreCodes(d, codes);
    if was.idx in codes { CodeInPlace(d, codes, h, was.idx); }
  }

  lemma OffsetsAreCodes(d: Image, codes: Codes)
    ensures Offsets(d, codes).Keys == codes.Keys
  {
    hide PlaceAll;
    PlaceKeeps(|d|, Placed([], map[]), Ascending(codes.Keys), codes);
  }

  // ----- fields -----

  lemma FirstNumbers(d: Image, p: nat, n: nat, m: nat)
    ensures ReadN(d, p, n).vals == ReadN(d, p, n + m).vals[..n]
  {
    hide ReadN, OkN;
    ReadNSplit(d, p, n, m);
  }

  /** The counts and two numbers a field. */
  function UpToFields(c: seq<u32>): nat
    requires |c| == 4
  {
    var statics: int, instances: int := c[0], c[1];
    4 + 2 * statics + 2 * instances
  }

  lemma FieldsIn(d: Image, off: nat)
    requires DataOk(d, off)
    ensures var c, vals := ReadN(d, off, 4).vals, ReadData(d, off).vals;
      var n := UpToFields(c);
      |vals| == n + MethodNums(c) && ReadN(d, off, n).vals == vals[..n]
  {
    hide ReadN, OkN;
    var c := ReadN(d, off, 4).vals;
    FirstNumbers(d, off, UpToFields(c), MethodNums(c));
  }

  lemma RewriteKeepsFields(d: Image, off: nat, offs: map<nat, u32>)
    requires DataOk(d, off)
    ensures var c, vals, w := ReadN(d, off, 4).vals, ReadData(d, off).vals, Rewrite(d, off, offs).vals;
      var n := UpToFields(c);
      n <= |vals| == |w| && w[..n] == vals[..n]
  {
    hide ReadN, ScanN, OkN, Patch, Hits;
    ScanIsRead(d, off);
    FieldsIn(d, off);
    RewrittenParts(d, off, offs);
    var c, vals, w := ReadN(d, off, 4).vals, ReadData(d, off).vals, Rewrite(d, off, offs).vals;
    var n := UpToFields(c);
    assert w == vals[..n] + Patch(Directs(vals, c), 0, offs) + Patch(Virtuals(vals, c), 0, offs);
  }

  /** Counts and fields of every class are listed as before, wherever its data is now. */
  lemma FieldsTold(d: Image, codes: Codes, h: Hashes, i: nat)
    requires HashesOk(h) && WellFormed(d) && |Build(d, codes, h)| < TWO32 && i < DefsSize(d)
    requires ReadClass(d, i).dataOff != 0
    ensures var e := Build(d, codes, h);
      var off, now := ReadClass(d, i).dataOff, ReadClass(e, i).dataOff;
      var c := ReadN(d, off, 4).vals;
      var n := UpToFields(c);
      ReadN(e, now, n).vals == ReadN(d, off, n).vals
  {
    hide Word32, Finish, Linked, Build, Offsets, DataOk, Rewrite, WriteN, MethodsAt, At, ReadN, OkN, ReadData;
    var e, offs := Build(d, codes, h), Offsets(d, codes);
    assert Rebuilt(d, codes, h, e);
    SameDefs(d, codes, h, e);
    var off, now := Word32(d, Def(d, i) + DATA_SLOT), Word32(e, Def(d, i) + DATA_SLOT);
    var c := ReadN(d, off, 4).vals;
    var n := UpToFields(c);
    FinalLoop(d, codes, h, e);
    hide LoopInv;
    SlotReads(d, codes, h, e, i);
    assert ClassOk(d, i);
    FieldsIn(d, off);
    if Rewrite(d, off, offs).hits == 0 {
      DataKept(d, codes, h, e, i);
      FieldsIn(e, off);
    } else {
      var w := Rewrite(d, off, offs).vals;
      TailReads(Linked(d, codes).d, Linked(d, codes).tail, h, now, WriteN(w));
      RewriteKeepsFields(d, off, offs);
      ReadWriteN(e, now, w);
      FirstNumbers(e, now, n, |w| - n);
    }
  }

  lemma DataKept(d: Image, codes: Codes, h: Hashes, e: Image, i: nat)
    requires HashesOk(h) && Rebuilt(d, codes, h, e) && i < DefsSize(d)
    requires Word32(d, Def(d, i) + DATA_SLOT) != 0
    ensures var off := Word32(d, Def(d, i) + DATA_SLOT);
      DataOk(e, off) && ReadData(e, off) == ReadData(d, off) && ReadN(e, off, 4) == ReadN(d, off, 4)
  {
    hide Word32, Finish, Linked, Build, ReadData, DataOk, ReadN;
    FinalLoop(d, codes, h, e);
    hide Done;
    var l := Linked(d, codes);
    var off := Word32(d, Def(d, i) + DATA_SLOT);
    assert ClassOk(d, i);
    DataUntouched(d, l.d, DefsSize(d), i);
    forall k | off <= k < ReadData(d, off).pos && k < |d| ensures d[k] == e[k] {
      FinishFrame(l.d, l.tail, h, k);
    }
    DataFrame(d, e, off);
  }

  // ----- counters -----

  /** How many of the methods are native and have recovered code. */
  function Recovered(ms: seq<Method>, codes: Codes): nat {
    if ms == [] then 0
    else (if ms[0].access / 0x100 % 2 == 1 && ms[0].idx in codes then 1 else 0) + Recovered(ms[1..], codes)
  }

  function RecoveredIn(d: Image, codes: Codes, i: nat): nat {
    Recovered(ReadClass(d, i).direct, codes) + Recovered(ReadClass(d, i).virt, codes)
  }

  /** Methods with recovered code, and classes that have one, from class i on. */
  function MethodsFrom(d: Image, codes: Codes, i: nat): nat
    decreases DefsSize(d) - i
  {
    if i >= DefsSize(d) then 0 else RecoveredIn(d, codes, i) + MethodsFrom(d, codes, i + 1)
  }

  function ClassesFrom(d: Image, codes: Codes, i: nat): nat
    decreases DefsSize(d) - i
  {
    if i >= DefsSize(d) then 0 else (if RecoveredIn(d, codes, i) > 0 then 1 else 0) + ClassesFrom(d, codes, i + 1)
  }

  lemma {:induction false} HitsCount(vals: seq<u32>, acc: u32, offs: map<nat, u32>, codes: Codes)
    requires |vals| % 3 == 0 && offs.Keys == codes.Keys
    ensures Hits(vals, acc, offs) == Recovered(Methods(vals, acc), codes)
    decreases |vals|
  {
    if vals != [] {
      var idx := (acc + vals[0]) % TWO32;
      HitsCount(vals[3..], idx, offs, codes);
      var ms := Methods(vals, acc);
      assert ms[1..] == Methods(vals[3..], idx);
      assert idx in offs <==> idx in codes;
    }
  }

  lemma ClassCount(d: Image, codes: Codes, offs: map<nat, u32>, l: Link, i: nat)
    requires WellFormed(d) && i < DefsSize(d) && OnlySlots(d, l.d, i) && offs.Keys == codes.Keys
    requires Def(d, i) + CLASS_DEF <= |l.d|
    ensures var r := RelinkClass(l, offs, Def(d, i));
      && r.methods == l.methods + RecoveredIn(d, codes, i)
      && r.classes == l.classes + (if RecoveredIn(d, codes, i) > 0 then 1 else 0)
  {
    hide Word32, ReadData, DataOk, Rewrite, OnlySlots, ReadN, Methods, Recovered, Hits, Directs, Virtuals, OkN;
    SlotsSize(d, l.d, i);
    SlotUntouched(d, l.d, i, i);
    assert ClassOk(d, i);
    var off := Word32(d, Def(d, i) + DATA_SLOT);
    if off == 0 {
      NoneRecovered0(codes);
    } else {
      DataUntouched(d, l.d, i, i);
      SameRewrite(d, l.d, off, offs);
      RewrittenParts(d, off, offs);
      var vals, c := ReadData(d, off).vals, ReadN(d, off, 4).vals;
      HitsCount(Directs(vals, c), 0, offs, codes);
      HitsCount(Virtuals(vals, c), 0, offs, codes);
    }
  }

  lemma NoneRecovered0(codes: Codes)
    ensures Recovered([], codes) == 0
  {
  }

  lemma {:induction false} LoopCounts(d: Image, codes: Codes, offs: map<nat, u32>, l: Link, i: nat)
    requires WellFormed(d) && i <= DefsSize(d) && LoopInv(d, offs, l, i) && offs.Keys == codes.Keys
    requires DefsOff(d) + DefsSize(d) * CLASS_DEF <= |l.d|
    requires |d| + |RelinkFrom(l, offs, DefsOff(d), i, DefsSize(d)).tail| < TWO32
    ensures var r := RelinkFrom(l, offs, DefsOff(d), i, DefsSize(d));
      && r.methods == l.methods + MethodsFrom(d, codes, i)
      && r.classes == l.classes + ClassesFrom(d, codes, i)
    decreases DefsSize(d) - i
  {
    hide WellFormed, RelinkClass, RecoveredIn, Word32, Done, OnlySlots;
    if i < DefsSize(d) {
      var m := RelinkClass(l, offs, Def(d, i));
      RelinkFrame(m, offs, DefsOff(d), i + 1, DefsSize(d));
      ClassCount(d, codes, offs, l, i);
      hide LoopInv;
      RelinkStep(d, offs, l, i);
      LoopSize(d, offs, m, i + 1);
      LoopCounts(d, codes, offs, m, i + 1);
    }
  }

  /** The rebuilder's counters tell how many methods got code and how many classes have one. */
  lemma CountsTold(d: Image, codes: Codes, h: Hashes)
    requires HashesOk(h) && WellFormed(d) && |Build(d, codes, h)| < TWO32
    ensures Linked(d, codes).methods == MethodsFrom(d, codes, 0)
    ensures Linked(d, codes).classes == ClassesFrom(d, codes, 0)
  {
    hide PlaceAll, RelinkFrom, Finish, Done, Word32, MethodsFrom, ClassesFrom;
    var placed := PlaceAll(|d|, Placed([], map[]), Ascending(codes.Keys), codes);
    DefsInside(d);
    OffsetsAreCodes(d, codes);
    LoopCounts(d, codes, placed.offs, Link(d, placed.tail, 0, 0), 0);
  }
}

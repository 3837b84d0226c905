// Names read back: descriptors, superclasses and method names are the same in the rebuilt
// file, for every DEX whose tables and strings lie outside what the rebuild may change.

module DexNames {
  import opened Common
  import U = Uleb128
  import opened DexModel
  import opened DexRebuild
  import opened DexReadBack

  /** A byte the rebuild cannot change: in the file, outside the header fields that are
      fixed up and outside the class definitions. */
  predicate Kept(d: Image, k: nat) {
    k < |d| && !HeaderField(k) && !(DefsOff(d) <= k < Def(d, DefsSize(d)))
  }

  ghost predicate AllKept(d: Image, lo: nat, hi: nat) {
    forall k :: lo <= k < hi ==> Kept(d, k)
  }

  /** What the rebuild leaves of d: e is at least as long and has every kept byte. */
  ghost predicate Extends(d: Image, e: Image) {
    |d| <= |e| && forall k :: 0 <= k < |d| && Kept(d, k) ==> e[k] == d[k]
  }

  lemma ChangedIsNotKept(d: Image, codes: Codes, h: Hashes, k: nat)
    requires HashesOk(h) && Accepts(d) && k < |d| && Build(d, codes, h)[k] != d[k]
    ensures !Kept(d, k)
  {
    hide Word32, Finish, Linked, Build, Patches, RelinkFrom;
    BuildFrame(d, codes, h, k);
    if !HeaderField(k) {
      var j :| 0 <= j < DefsSize(d) && InPatchedSlot(Placing(d, codes), Offsets(d, codes), DefsOff(d), 0, j, k);
      DefBelow(d, j);
    }
  }

  lemma BuildExtends(d: Image, codes: Codes, h: Hashes)
    requires HashesOk(h) && Accepts(d)
    ensures Extends(d, Build(d, codes, h))
  {
    hide Word32, Finish, Linked, Kept;
    var e := Build(d, codes, h);
    forall k | 0 <= k < |d| && Kept(d, k) ensures e[k] == d[k] {
      if e[k] != d[k] { ChangedIsNotKept(d, codes, h, k); }
    }
  }

  // ----- words -----

  lemma KeptWord(d: Image, e: Image, o: nat)
    requires Extends(d, e) && AllKept(d, o, o + 4)
    ensures Word32(e, o) == Word32(d, o)
  {
    hide Word32, Kept;
    assert Kept(d, o + 3);
    InFile(d, o + 3);
    WordFrame(d, e, o);
  }

  lemma InFile(d: Image, k: nat)
    requires Kept(d, k)
    ensures k < |d|
  {
  }

  lemma KeptHalf(d: Image, e: Image, o: nat)
    requires Extends(d, e) && AllKept(d, o, o + 2)
    ensures Word16(e, o) == Word16(d, o)
  {
    hide Kept;
    assert Kept(d, o) && Kept(d, o + 1);
    InFile(d, o + 1);
  }

  /** The header words that describe the tables are out of the way of the class
      definitions. */
  ghost predicate TablesKept(d: Image) {
    AllKept(d, 0x38, 0x60)
  }

  lemma TableWord(d: Image, e: Image, o: nat)
    requires Extends(d, e) && TablesKept(d) && 0x38 <= o <= 0x5c
    ensures Word32(e, o) == Word32(d, o)
  {
    hide Word32, Kept;
    KeptWord(d, e, o);
  }

  // ----- strings -----

  /** Where the text that starts at p stops. */
  function TextEnd(d: Image, p: nat): (r: nat)
    ensures p <= r
    decreases |d| - p
  {
    if p >= |d| || d[p] == 0 then p else TextEnd(d, p + 1)
  }

  lemma {:induction false} KeptText(d: Image, e: Image, p: nat)
    requires Extends(d, e) && TextEnd(d, p) < |d| && AllKept(d, p, TextEnd(d, p) + 1)
    ensures TextFrom(e, p) == TextFrom(d, p)
    decreases |d| - p
  {
    hide Kept;
    assert Kept(d, p);
    InFile(d, p);
    if d[p] != 0 { KeptText(d, e, p + 1); }
  }

  /** The entry and the data of a string are kept, and a zero ends it. */
  ghost predicate StringKept(d: Image, idx: u32) {
    idx < Word32(d, 0x38) ==>
      var at := Entry(Word32(d, 0x3c), idx);
      var off := Word32(d, at);
      && AllKept(d, at, at + 4) && off < |d| && U.Ok(d, off)
      && TextEnd(d, U.Read(d, off).pos) < |d| && AllKept(d, off, TextEnd(d, U.Read(d, off).pos) + 1)
  }

  lemma StringReads(d: Image, e: Image, idx: u32)
    requires Extends(d, e) && TablesKept(d) && StringKept(d, idx)
    ensures StringAt(e, idx) == StringAt(d, idx)
  {
    hide Word32, Kept, U.Read, U.Ok;
    TableWord(d, e, 0x38);
    TableWord(d, e, 0x3c);
    if idx < Word32(d, 0x38) {
      var at := Entry(Word32(d, 0x3c), idx);
      KeptWord(d, e, at);
      var off := Word32(d, at);
      U.Frame(d, e, off);
      KeptText(d, e, U.Read(d, off).pos);
    }
  }

  // ----- types and methods -----

  ghost predicate TypeKept(d: Image, idx: u32) {
    idx != NO_INDEX && idx < Word32(d, 0x40) ==>
      var at := Entry(Word32(d, 0x44), idx);
      AllKept(d, at, at + 4) && StringKept(d, Word32(d, at))
  }

  lemma TypeReads(d: Image, e: Image, idx: u32)
    requires Extends(d, e) && TablesKept(d) && TypeKept(d, idx)
    ensures TypeAt(e, idx) == TypeAt(d, idx)
  {
    hide Word32, Kept, StringKept, StringAt;
    TableWord(d, e, 0x40);
    TableWord(d, e, 0x44);
    if idx != NO_INDEX && idx < Word32(d, 0x40) {
      var at := Entry(Word32(d, 0x44), idx);
      KeptWord(d, e, at);
      StringReads(d, e, Word32(d, at));
    }
  }

  ghost predicate NameKept(d: Image, idx: u32) {
    idx < Word32(d, 0x58) ==>
      var o := Word32(d, 0x5c) + idx * 8;
      var id := MethodIdAt(d, idx);
      var proto := Word32(d, 0x4c) + id.proto * 12;
      && AllKept(d, o, o + 8) && TypeKept(d, id.cls) && StringKept(d, id.name)
      && (id.proto < Word32(d, 0x48) ==> AllKept(d, proto, proto + 4) && StringKept(d, Word32(d, proto)))
  }

  lemma IdReads(d: Image, e: Image, idx: u32)
    requires Extends(d, e) && TablesKept(d)
    requires var o := Word32(d, 0x5c) + idx * 8;
      AllKept(d, o, o + 8)
    ensures MethodIdAt(e, idx) == MethodIdAt(d, idx)
  {
    hide Word32, Word16, Kept;
    TableWord(d, e, 0x5c);
    var o := Word32(d, 0x5c) + idx * 8;
    assert Kept(d, o + 7);
    InFile(d, o + 7);
    KeptHalf(d, e, o);
    KeptHalf(d, e, o + 2);
    KeptWord(d, e, o + 4);
  }

  lemma NameReads(d: Image, e: Image, idx: u32)
    requires Extends(d, e) && TablesKept(d) && NameKept(d, idx)
    ensures NameAt(e, idx) == NameAt(d, idx)
  {
    hide Word32, Kept, StringKept, TypeKept, StringAt, TypeAt, MethodIdAt, AllKept;
    TableWord(d, e, 0x58);
    if idx < Word32(d, 0x58) {
      IdReads(d, e, idx);
      var id := MethodIdAt(d, idx);
      TypeReads(d, e, id.cls);
      StringReads(d, e, id.name);
      TableWord(d, e, 0x48);
      TableWord(d, e, 0x4c);
      if id.proto < Word32(d, 0x48) {
        var proto := Word32(d, 0x4c) + id.proto * 12;
        KeptWord(d, e, proto);
        StringReads(d, e, Word32(d, proto));
      }
    }
  }

  // ----- the rebuilt file -----

  /** All the names the reader reports for a class are kept. */
  ghost predicate ClassNamesKept(d: Image, c: Class) {
    && TypeKept(d, c.classIdx) && TypeKept(d, c.superIdx)
    && (forall m :: m in c.direct ==> NameKept(d, m.idx)) && (forall m :: m in c.virt ==> NameKept(d, m.idx))
  }

  function NamesOf(d: Image, ms: seq<Method>): seq<MethodName> {
    seq(|ms|, i requires 0 <= i < |ms| => NameAt(d, ms[i].idx))
  }

  /** The same descriptor, superclass and methods by name. */
  ghost predicate SameNames(d: Image, c: Class, e: Image, c': Class) {
    && TypeAt(e, c'.classIdx) == TypeAt(d, c.classIdx) && TypeAt(e, c'.superIdx) == TypeAt(d, c.superIdx)
    && NamesOf(e, c'.direct) == NamesOf(d, c.direct) && NamesOf(e, c'.virt) == NamesOf(d, c.virt)
  }

  lemma MethodsRead(d: Image, e: Image, ms: seq<Method>, offs: map<nat, u32>)
    requires Extends(d, e) && TablesKept(d) && forall m :: m in ms ==> NameKept(d, m.idx)
    ensures NamesOf(e, RelinkAll(ms, offs)) == NamesOf(d, ms)
  {
    hide Extends, TablesKept, NameKept, NameAt;
    var ms' := RelinkAll(ms, offs);
    forall i | 0 <= i < |ms| ensures NameAt(e, ms'[i].idx) == NameAt(d, ms[i].idx) {
      assert ms[i] in ms;
      NameReads(d, e, ms[i].idx);
    }
  }

  /** Names read back: with the classes and methods that the rebuilt file keeps in order,
      every descriptor, superclass and method name is what it was. */
  lemma NamesReadBack(d: Image, codes: Codes, h: Hashes)
    requires HashesOk(h) && WellFormed(d) && |Build(d, codes, h)| < TWO32 && TablesKept(d)
    requires forall i :: 0 <= i < DefsSize(d) ==> ClassNamesKept(d, ReadClass(d, i))
    ensures var e := Build(d, codes, h);
      forall i :: 0 <= i < DefsSize(d) ==> SameNames(d, ReadClass(d, i), e, ReadClass(e, i))
  {
    hide Build, ReadClass, Word32, TablesKept, Extends, TypeKept, NameKept, TypeAt, NamesOf, RelinkAll, Offsets,
      NoneRecovered;
    var e := Build(d, codes, h);
    BuildExtends(d, codes, h);
    ReadBack(d, codes, h);
    forall i | 0 <= i < DefsSize(d) ensures SameNames(d, ReadClass(d, i), e, ReadClass(e, i)) {
      var c := ReadClass(d, i);
      assert ClassNamesKept(d, c) && IsRelinked(c, ReadClass(e, i), Offsets(d, codes));
      TypeReads(d, e, c.classIdx);
      TypeReads(d, e, c.superIdx);
      MethodsRead(d, e, c.direct, Offsets(d, codes));
      MethodsRead(d, e, c.virt, Offsets(d, codes));
    }
  }
}

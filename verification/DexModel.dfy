// The parts of a DEX image that the reader and the rebuilder share: header words,
// class definitions and class data (header_item, class_def_item and class_data_item
// of the Dalvik Executable format).

module DexModel {
  import opened Common
  import LE = LittleEndian
  import opened Uleb128

  type Image = seq<byte>

  const HEADER: nat := 0x70
  const MAGIC: seq<byte> := [0x64, 0x65, 0x78, 0x0a]
  const CLASS_DEF: nat := 32
  const DATA_SLOT: nat := 24
  const ACC_NATIVE: nat := 0x100

  /** A bounds-checked read; zero outside the file. */
  function Word32(d: Image, o: nat): (v: u32) {
    if o + 4 > |d| then 0
    else
      LE.Widths();
      LE.DecodeBound(d[o..o + 4]);
      LE.Decode(d[o..o + 4])
  }

  function Word16(d: Image, o: nat): (v: u16) {
    if o + 2 > |d| then 0 else var hi: int := d[o + 1]; d[o] + 256 * hi
  }

  function Put32(d: Image, o: nat, v: u32): (r: Image)
    requires o + 4 <= |d|
    ensures |r| == |d| && forall i :: 0 <= i < |d| && !(o <= i < o + 4) ==> r[i] == d[i]
  {
    LE.Splice(d, o, LE.Encode(v, 4))
  }

  lemma GetPut32(d: Image, o: nat, v: u32)
    requires o + 4 <= |d|
    ensures Word32(Put32(d, o, v), o) == v
  {
    LE.Widths();
    LE.DecodeEncode(v, 4);
  }

  ghost predicate Agree(d: Image, e: Image, lo: nat, hi: nat) {
    forall i :: lo <= i < hi && i < |d| && i < |e| ==> d[i] == e[i]
  }

  lemma WordFrame(d: Image, e: Image, o: nat)
    requires o + 4 <= |d| && o + 4 <= |e| && Agree(d, e, o, o + 4)
    ensures Word32(d, o) == Word32(e, o)
  {
    hide LE.Decode;
    assert d[o..o + 4] == e[o..o + 4];
  }

  // ----- class definitions -----

  function DefsSize(d: Image): u32 { Word32(d, 0x60) }

  function DefsOff(d: Image): u32 { Word32(d, 0x64) }

  function Def(d: Image, i: nat): nat { DefsOff(d) + i * CLASS_DEF }

  /** What both the reader and the rebuilder check before they go on. */
  predicate Accepts(d: Image) {
    |d| >= HEADER && d[..4] == MAGIC && Def(d, DefsSize(d)) <= |d|
  }

  lemma DefInside(d: Image, i: nat)
    requires Accepts(d) && i < DefsSize(d)
    ensures Def(d, i) + CLASS_DEF <= |d|
  {
  }

  lemma DefsApart(d: Image, i: nat, j: nat)
    requires i < j
    ensures Def(d, i) + CLASS_DEF <= Def(d, j)
  {
  }

  // ----- class data as runs of numbers -----

  /** The reader adds the two field counts in 32 bits. */
  function ReadTotal(c: seq<u32>): nat
    requires |c| == 4
  {
    var sf: int, inf: int, dm: int, vm: int := c[0], c[1], c[2], c[3];
    4 + 2 * ((sf + inf) % TWO32) + 3 * dm + 3 * vm
  }

  /** The rebuilder copies the two field lists one after the other. */
  function ScanTotal(c: seq<u32>): nat
    requires |c| == 4
  {
    var sf: int, inf: int, dm: int, vm: int := c[0], c[1], c[2], c[3];
    4 + 2 * sf + 2 * inf + 3 * dm + 3 * vm
  }

  function ReadData(d: Image, off: nat): (r: Nums)
    ensures |r.vals| == ReadTotal(ReadN(d, off, 4).vals) && Fits(r.vals, ReadN(d, off, 4).vals)
  {
    ReadN(d, off, ReadTotal(ReadN(d, off, 4).vals))
  }

  function ScanData(d: Image, off: nat): (r: Nums)
    ensures |r.vals| == ScanTotal(ScanN(d, off, 4).vals) && Fits(r.vals, ScanN(d, off, 4).vals)
  {
    ScanN(d, off, ScanTotal(ScanN(d, off, 4).vals))
  }

  /** A class_data_item whose numbers are all well formed. */
  predicate DataOk(d: Image, off: nat) {
    var c := ReadN(d, off, 4).vals;
    c[0] + c[1] < TWO32 && OkN(d, off, ReadTotal(c))
  }

  // ----- methods -----

  datatype Method = Method(idx: u32, access: u32, codeOff: u32)

  /** Encoded methods: index difference, access flags, code offset. */
  function Methods(vals: seq<u32>, acc: u32): (ms: seq<Method>)
    requires |vals| % 3 == 0
    ensures |ms| == |vals| / 3
    decreases |vals|
  {
    if vals == [] then []
    else
      var idx := (acc + vals[0]) % TWO32;
      [Method(idx, vals[1], vals[2])] + Methods(vals[3..], idx)
  }

  /** Class data long enough for the methods its counts announce. */
  predicate Fits(vals: seq<u32>, c: seq<u32>) {
    |c| == 4 && 4 + MethodNums(c) <= |vals|
  }

  function MethodNums(c: seq<u32>): nat
    requires |c| == 4
  {
    var dm: int, vm: int := c[2], c[3];
    3 * dm + 3 * vm
  }

  /** The numbers of the direct methods. */
  function Directs(vals: seq<u32>, c: seq<u32>): (r: seq<u32>)
    requires Fits(vals, c)
    ensures |r| % 3 == 0
  {
    var vm: int := c[3];
    vals[|vals| - MethodNums(c)..|vals| - 3 * vm]
  }

  /** The numbers of the virtual methods, which come last. */
  function Virtuals(vals: seq<u32>, c: seq<u32>): (r: seq<u32>)
    requires Fits(vals, c)
    ensures |r| % 3 == 0
  {
    var vm: int := c[3];
    vals[|vals| - 3 * vm..]
  }

  datatype Class = Class(classIdx: u32, access: u32, superIdx: u32, dataOff: u32,
                         direct: seq<Method>, virt: seq<Method>)

  function MethodsAt(d: Image, off: nat): (r: (seq<Method>, seq<Method>)) {
    if off == 0 || off >= |d| then ([], [])
    else
      var vals := ReadData(d, off).vals;
      var c := ReadN(d, off, 4).vals;
      (Methods(Directs(vals, c), 0), Methods(Virtuals(vals, c), 0))
  }

  /** The i-th class as the reader reports it. */
  function ReadClass(d: Image, i: nat): (c: Class) {
    var o := Def(d, i);
    var off := Word32(d, o + DATA_SLOT);
    var ms := MethodsAt(d, off);
    Class(Word32(d, o), Word32(d, o + 4), Word32(d, o + 8), off, ms.0, ms.1)
  }

  // ----- names -----

  type Text = seq<byte>

  const NO_INDEX: u32 := 0xffff_ffff

  /** Bytes up to a zero or the end of the file. */
  function TextFrom(d: Image, p: nat): Text
    decreases |d| - p
  {
    if p >= |d| || d[p] == 0 then [] else [d[p]] + TextFrom(d, p + 1)
  }

  /** Where the i-th four-byte entry of a table is, computed in 32 bits. */
  function Entry(off: u32, i: u32): u32 { (off + i * 4) % TWO32 }

  function StringAt(d: Image, idx: u32): Text {
    if idx >= Word32(d, 0x38) then []
    else
      var off := Word32(d, Entry(Word32(d, 0x3c), idx));
      if off >= |d| then [] else TextFrom(d, Read(d, off).pos)
  }

  function TypeAt(d: Image, idx: u32): Text {
    if idx == NO_INDEX || idx >= Word32(d, 0x40) then []
    else StringAt(d, Word32(d, Entry(Word32(d, 0x44), idx)))
  }

  datatype MethodName = MethodName(cls: Text, name: Text, sig: Text)

  /** A method_id: class, prototype and name indices. */
  datatype MethodId = MethodId(cls: u16, proto: u16, name: u32)

  function MethodIdAt(d: Image, idx: u32): MethodId {
    var o := Word32(d, 0x5c) + idx * 8;
    if o + 8 <= |d| then MethodId(Word16(d, o), Word16(d, o + 2), Word32(d, o + 4)) else MethodId(0, 0, 0)
  }

  function NameAt(d: Image, idx: u32): MethodName {
    if idx >= Word32(d, 0x58) then MethodName([], [], [])
    else
      var id := MethodIdAt(d, idx);
      MethodName(TypeAt(d, id.cls), StringAt(d, id.name),
                 if id.proto < Word32(d, 0x48) then StringAt(d, Word32(d, Word32(d, 0x4c) + id.proto * 12)) else [])
  }
}

// The DEX reader and the rebuilder as written: cursors, loops and growing
// buffers, each proved against DexModel and DexRebuild.

module DexObjects {
  import opened Common
  import LE = LittleEndian
  import U = Uleb128
  import opened DexModel
  import R = DexRebuild

  // ----- number readers -----

  method ReadUleb(d: Image, p0: nat) returns (v: u32, p: nat)
    ensures U.Num(v, p) == U.Read(d, p0)
  {
    hide U.Shifted;
    v, p := 0, p0;
    var i := 0;
    while i < 5 && p < |d|
      invariant 0 <= i <= 5 && U.Read(d, p0) == U.ReadFrom(d, p, i, v)
    {
      var b := d[p];
      p := p + 1;
      v := (v + U.Shifted(b % 128, i)) % TWO32;
      if b < 128 { return; }
      i := i + 1;
    }
  }

  method ScanUleb(d: Image, p0: nat) returns (v: u32, p: nat)
    ensures U.Num(v, p) == U.Scan(d, p0)
  {
    hide U.Shifted;
    v, p := 0, p0;
    var k := 0;
    while p < |d|
      invariant 0 <= k && U.Scan(d, p0) == U.ScanFrom(d, p, k, v)
      decreases |d| - p
    {
      var x := d[p];
      p := p + 1;
      if k < 5 { v := (v + U.Shifted(x % 128, k)) % TWO32; }
      if x < 128 { return; }
      k := k + 1;
    }
  }

  // ----- the reader -----

  lemma ReadTriple(d: Image, p: nat, n: nat)
    ensures var a := U.Read(d, p);
      var b := U.Read(d, a.pos);
      var c := U.Read(d, b.pos);
      var rest := U.ReadN(d, c.pos, n);
      U.ReadN(d, p, 3 + n) == U.Nums([a.value, b.value, c.value] + rest.vals, rest.pos)
  {
    hide U.Read;
    var a := U.Read(d, p);
    var b := U.Read(d, a.pos);
    var c := U.Read(d, b.pos);
    var rest := U.ReadN(d, c.pos, n);
    assert U.ReadN(d, b.pos, 1 + n).vals == [c.value] + rest.vals;
    assert U.ReadN(d, a.pos, 2 + n).vals == [b.value] + ([c.value] + rest.vals);
    assert U.ReadN(d, p, 3 + n).vals == [a.value] + ([b.value] + ([c.value] + rest.vals));
  }

  lemma MethodsUnfold(a: u32, b: u32, c: u32, rest: seq<u32>, acc: u32)
    requires |rest| % 3 == 0
    ensures var idx := (acc + a) % TWO32;
      Methods([a, b, c] + rest, acc) == [Method(idx, b, c)] + Methods(rest, idx)
  {
    var all := [a, b, c] + rest;
    assert all[3..] == rest;
  }

  method DecodeMethods(d: Image, p0: nat, count: nat) returns (ms: seq<Method>, p: nat)
    ensures ms == Methods(U.ReadN(d, p0, 3 * count).vals, 0) && p == U.ReadN(d, p0, 3 * count).pos
  {
    hide U.Read, U.ReadN, Methods;
    ms, p := [], p0;
    var midx: u32 := 0;
    ghost var all := U.ReadN(d, p0, 3 * count);
    for i := 0 to count
      invariant var left := U.ReadN(d, p, 3 * (count - i));
        all.pos == left.pos && Methods(all.vals, 0) == ms + Methods(left.vals, midx)
    {
      ReadTriple(d, p, 3 * (count - i - 1));
      var diff, access, codeOff: u32;
      diff, p := ReadUleb(d, p);
      access, p := ReadUleb(d, p);
      codeOff, p := ReadUleb(d, p);
      MethodsUnfold(diff, access, codeOff, U.ReadN(d, p, 3 * (count - i - 1)).vals, midx);
      midx := (midx + diff) % TWO32;
      ms := ms + [Method(midx, access, codeOff)];
    }
    NoMethods(d, p, midx);
  }

  lemma NoMethods(d: Image, p: nat, acc: u32)
    ensures U.ReadN(d, p, 0) == U.Nums([], p) && Methods([], acc) == []
  {
  }

  method SkipNums(d: Image, p0: nat, n: nat) returns (p: nat)
    ensures p == U.ReadN(d, p0, n).pos
  {
    hide U.Read;
    p := p0;
    for i := 0 to n
      invariant U.ReadN(d, p0, n).pos == U.ReadN(d, p, n - i).pos
    {
      var v;
      v, p := ReadUleb(d, p);
    }
  }

  lemma LastParts(vals: seq<u32>, c: seq<u32>, lead: seq<u32>, direct: seq<u32>, virt: seq<u32>)
    requires Fits(vals, c) && vals == lead + direct + virt
    requires var dm: int, vm: int := c[2], c[3];
      |direct| == 3 * dm && |virt| == 3 * vm
    ensures Directs(vals, c) == direct && Virtuals(vals, c) == virt && vals[..|vals| - MethodNums(c)] == lead
  {
  }

  lemma DataStages(d: Image, off: nat)
    ensures var head := U.ReadN(d, off, 4);
      var c := head.vals;
      var sf: int, inf: int, dm: int, vm: int := c[0], c[1], c[2], c[3];
      var p := U.ReadN(d, head.pos, 2 * ((sf + inf) % TWO32)).pos;
      var direct := U.ReadN(d, p, 3 * dm);
      && Directs(ReadData(d, off).vals, c) == direct.vals
      && Virtuals(ReadData(d, off).vals, c) == U.ReadN(d, direct.pos, 3 * vm).vals
  {
    hide U.ReadN, Directs, Virtuals;
    var head := U.ReadN(d, off, 4);
    var c := head.vals;
    var sf: int, inf: int, dm: int, vm: int := c[0], c[1], c[2], c[3];
    var n := 2 * ((sf + inf) % TWO32);
    var f := U.ReadN(d, head.pos, n);
    var direct := U.ReadN(d, f.pos, 3 * dm);
    var virt := U.ReadN(d, direct.pos, 3 * vm);
    U.ReadNSplit(d, off, 4, n + 3 * dm + 3 * vm);
    U.ReadNSplit(d, head.pos, n, 3 * dm + 3 * vm);
    U.ReadNSplit(d, f.pos, 3 * dm, 3 * vm);
    assert ReadData(d, off).vals == c + f.vals + direct.vals + virt.vals;
    LastParts(ReadData(d, off).vals, c, c + f.vals, direct.vals, virt.vals);
  }

  lemma FourReads(d: Image, p: nat)
    ensures var a := U.Read(d, p);
      var b := U.Read(d, a.pos);
      var c := U.Read(d, b.pos);
      var e := U.Read(d, c.pos);
      U.ReadN(d, p, 4) == U.Nums([a.value, b.value, c.value, e.value], e.pos)
  {
    hide U.Read;
    var a := U.Read(d, p);
    ReadTriple(d, p, 1);
    var c := U.Read(d, U.Read(d, a.pos).pos);
    assert U.ReadN(d, c.pos, 1).vals == [U.Read(d, c.pos).value] + U.ReadN(d, U.Read(d, c.pos).pos, 0).vals;
  }

  method ParseClassData(d: Image, off: u32) returns (direct: seq<Method>, virt: seq<Method>)
    ensures (direct, virt) == MethodsAt(d, off)
  {
    hide U.Read, U.ReadN, Methods, ReadData, Directs, Virtuals;
    if off == 0 || off >= |d| {
      return [], [];
    }
    FourReads(d, off);
    DataStages(d, off);
    var p: nat := off;
    var staticFields, instanceFields, directCount, virtCount: int;
    staticFields, p := ReadUleb(d, p);
    instanceFields, p := ReadUleb(d, p);
    directCount, p := ReadUleb(d, p);
    virtCount, p := ReadUleb(d, p);
    p := SkipNums(d, p, 2 * ((staticFields + instanceFields) % TWO32));
    direct, p := DecodeMethods(d, p, directCount);
    virt, p := DecodeMethods(d, p, virtCount);
  }

  class DexFile {
    var bytes: Image
    var valid: bool
    var classes: seq<Class>

    constructor ()
      ensures !valid && bytes == [] && classes == []
    {
      bytes, valid, classes := [], false, [];
    }

    method Parse(data: Image)
      modifies this
      ensures bytes == data && valid == Accepts(data)
      ensures valid ==> |classes| == DefsSize(data)
      ensures valid ==> forall i :: 0 <= i < |classes| ==> classes[i] == ReadClass(data, i)
      ensures !valid ==> classes == []
    {
      hide Word32, MethodsAt;
      bytes, valid, classes := data, false, [];
      if |data| < HEADER || data[..4] != MAGIC {
        return;
      }
      var n, base := Word32(data, 0x60), Word32(data, 0x64);
      if base + n * CLASS_DEF > |data| {
        return;
      }
      for i := 0 to n
        invariant bytes == data && !valid && |classes| == i
        invariant forall j :: 0 <= j < i ==> classes[j] == ReadClass(data, j)
      {
        var o := base + i * CLASS_DEF;
        var off := Word32(data, o + DATA_SLOT);
        var direct, virt := ParseClassData(data, off);
        classes := classes + [Class(Word32(data, o), Word32(data, o + 4), Word32(data, o + 8), off, direct, virt)];
      }
      valid := true;
    }

    /** Looks up a string: an entry, a length that is skipped, bytes up to a zero. */
    method StringAt(idx: u32) returns (s: Text)
      ensures s == DexModel.StringAt(bytes, idx)
    {
      hide Word32, U.Read;
      if idx >= Word32(bytes, 0x38) {
        return [];
      }
      var off := Word32(bytes, Entry(Word32(bytes, 0x3c), idx));
      if off >= |bytes| {
        return [];
      }
      var len, p := ReadUleb(bytes, off);
      ghost var start := p;
      s := [];
      while p < |bytes| && bytes[p] != 0
        invariant TextFrom(bytes, start) == s + TextFrom(bytes, p)
        decreases |bytes| - p
      {
        s := s + [bytes[p]];
        p := p + 1;
      }
    }

    method TypeAt(idx: u32) returns (s: Text)
      ensures s == DexModel.TypeAt(bytes, idx)
    {
      hide Word32, DexModel.StringAt;
      if idx == NO_INDEX || idx >= Word32(bytes, 0x40) {
        return [];
      }
      s := StringAt(Word32(bytes, Entry(Word32(bytes, 0x44), idx)));
    }

    method MethodAt(idx: u32) returns (name: MethodName)
      ensures name == NameAt(bytes, idx)
    {
      hide Word32, Word16, DexModel.StringAt, DexModel.TypeAt;
      if idx >= Word32(bytes, 0x58) {
        return MethodName([], [], []);
      }
      var mo := Word32(bytes, 0x5c) + idx * 8;
      var clsIdx: u16, protoIdx: u16, nameIdx: u32 := 0, 0, 0;
      if mo + 8 <= |bytes| {
        clsIdx, protoIdx, nameIdx := Word16(bytes, mo), Word16(bytes, mo + 2), Word32(bytes, mo + 4);
      }
      var cls := TypeAt(clsIdx);
      var text := StringAt(nameIdx);
      var sig: Text := [];
      if protoIdx < Word32(bytes, 0x48) {
        sig := StringAt(Word32(bytes, Word32(bytes, 0x4c) + protoIdx * 12));
      }
      name := MethodName(cls, text, sig);
    }
  }

  // ----- the rebuilder -----

  lemma ScanTriple(d: Image, p: nat, n: nat)
    ensures var a := U.Scan(d, p);
      var b := U.Scan(d, a.pos);
      var c := U.Scan(d, b.pos);
      var rest := U.ScanN(d, c.pos, n);
      U.ScanN(d, p, 3 + n) == U.Nums([a.value, b.value, c.value] + rest.vals, rest.pos)
  {
    hide U.Scan;
    var a := U.Scan(d, p);
    var b := U.Scan(d, a.pos);
    var c := U.Scan(d, b.pos);
    var rest := U.ScanN(d, c.pos, n);
    assert U.ScanN(d, b.pos, 1 + n).vals == [c.value] + rest.vals;
    assert U.ScanN(d, a.pos, 2 + n).vals == [b.value] + ([c.value] + rest.vals);
    assert U.ScanN(d, p, 3 + n).vals == [a.value] + ([b.value] + ([c.value] + rest.vals));
  }

  lemma WriteFirst(a: u32, rest: seq<u32>)
    ensures U.WriteN([a] + rest) == U.Write(a) + U.WriteN(rest)
  {
    assert ([a] + rest)[1..] == rest;
  }

  lemma WriteThree(blk: seq<byte>, a: u32, b: u32, c: u32, rest: seq<u32>)
    ensures blk + U.WriteN([a, b, c] + rest) == blk + U.Write(a) + U.Write(b) + U.Write(c) + U.WriteN(rest)
  {
    hide U.Write, U.WriteN;
    WriteFirst(c, rest);
    WriteFirst(b, [c] + rest);
    WriteFirst(a, [b] + ([c] + rest));
    assert [a, b, c] + rest == [a] + ([b] + ([c] + rest));
  }

  lemma PatchUnfold(a: u32, b: u32, c: u32, rest: seq<u32>, acc: u32, offs: map<nat, u32>)
    requires |rest| % 3 == 0
    ensures var idx := (acc + a) % TWO32;
      var hit := R.Recovers(offs, idx, b);
      && R.Patch([a, b, c] + rest, acc, offs) ==
           (if hit then [a, b - ACC_NATIVE, offs[idx]] else [a, b, c]) + R.Patch(rest, idx, offs)
      && R.Hits([a, b, c] + rest, acc, offs) == (if hit then 1 else 0) + R.Hits(rest, idx, offs)
  {
    var all := [a, b, c] + rest;
    assert all[3..] == rest && all[..3] == [a, b, c];
  }

  /** One group of methods, rewritten as it is read. */
  method PatchGroup(d: Image, p0: nat, count: nat, blk0: seq<byte>, offs: map<nat, u32>)
    returns (p: nat, blk: seq<byte>, hits: nat)
    ensures var s := U.ScanN(d, p0, 3 * count);
      p == s.pos && blk == blk0 + U.WriteN(R.Patch(s.vals, 0, offs)) && hits == R.Hits(s.vals, 0, offs)
  {
    hide U.Scan, U.ScanN, U.WriteN, R.Patch, R.Hits, U.Write;
    p, blk, hits := p0, blk0, 0;
    var midx: u32 := 0;
    ghost var all := U.ScanN(d, p0, 3 * count);
    for i := 0 to count
      invariant var left := U.ScanN(d, p, 3 * (count - i));
        && all.pos == left.pos
        && blk0 + U.WriteN(R.Patch(all.vals, 0, offs)) == blk + U.WriteN(R.Patch(left.vals, midx, offs))
        && R.Hits(all.vals, 0, offs) == hits + R.Hits(left.vals, midx, offs)
    {
      ScanTriple(d, p, 3 * (count - i - 1));
      var diff, access, codeOff: u32;
      diff, p := ScanUleb(d, p);
      access, p := ScanUleb(d, p);
      codeOff, p := ScanUleb(d, p);
      ghost var rest := U.ScanN(d, p, 3 * (count - i - 1)).vals;
      PatchUnfold(diff, access, codeOff, rest, midx, offs);
      midx := (midx + diff) % TWO32;
      if midx in offs && R.IsNative(access) {
        access := access - ACC_NATIVE;
        codeOff := offs[midx];
        hits := hits + 1;
      }
      WriteThree(blk, diff, access, codeOff, R.Patch(rest, midx, offs));
      blk := U.WriteUleb(blk, diff);
      blk := U.WriteUleb(blk, access);
      blk := U.WriteUleb(blk, codeOff);
    }
    NoneLeft(d, p, midx, offs);
  }

  lemma NoneLeft(d: Image, p: nat, acc: u32, offs: map<nat, u32>)
    ensures U.ScanN(d, p, 0) == U.Nums([], p) && R.Patch([], acc, offs) == []
    ensures R.Hits([], acc, offs) == 0 && U.WriteN([]) == []
  {
  }

  /** Numbers copied through. */
  method CopyNums(d: Image, p0: nat, n: nat, blk0: seq<byte>) returns (p: nat, blk: seq<byte>)
    ensures p == U.ScanN(d, p0, n).pos && blk == blk0 + U.WriteN(U.ScanN(d, p0, n).vals)
  {
    hide U.Scan, U.Write;
    p, blk := p0, blk0;
    ghost var all := U.ScanN(d, p0, n);
    for i := 0 to n
      invariant all.pos == U.ScanN(d, p, n - i).pos
      invariant blk0 + U.WriteN(all.vals) == blk + U.WriteN(U.ScanN(d, p, n - i).vals)
    {
      ghost var left := U.ScanN(d, p, n - i).vals;
      var v;
      v, p := ScanUleb(d, p);
      assert left[1..] == U.ScanN(d, p, n - i - 1).vals;
      blk := U.WriteUleb(blk, v);
    }
  }

  lemma ScanStages(d: Image, off: nat)
    ensures var head := U.ScanN(d, off, 4);
      var c := head.vals;
      var sf: int, inf: int, dm: int, vm: int := c[0], c[1], c[2], c[3];
      var s := U.ScanN(d, head.pos, 2 * sf);
      var f := U.ScanN(d, s.pos, 2 * inf);
      var direct := U.ScanN(d, f.pos, 3 * dm);
      var vals := ScanData(d, off).vals;
      && Directs(vals, c) == direct.vals && Virtuals(vals, c) == U.ScanN(d, direct.pos, 3 * vm).vals
      && vals[..|vals| - MethodNums(c)] == c + s.vals + f.vals
  {
    hide U.ScanN, Directs, Virtuals;
    var head := U.ScanN(d, off, 4);
    var c := head.vals;
    var sf: int, inf: int, dm: int, vm: int := c[0], c[1], c[2], c[3];
    var s := U.ScanN(d, head.pos, 2 * sf);
    var f := U.ScanN(d, s.pos, 2 * inf);
    U.ScanNSplit(d, off, 4, 2 * sf + 2 * inf + 3 * dm + 3 * vm);
    U.ScanNSplit(d, head.pos, 2 * sf, 2 * inf + 3 * dm + 3 * vm);
    U.ScanNSplit(d, s.pos, 2 * inf, 3 * dm + 3 * vm);
    U.ScanNSplit(d, f.pos, 3 * dm, 3 * vm);
    var direct := U.ScanN(d, f.pos, 3 * dm);
    var virt := U.ScanN(d, direct.pos, 3 * vm);
    assert ScanData(d, off).vals == c + s.vals + f.vals + direct.vals + virt.vals;
    LastParts(ScanData(d, off).vals, c, c + s.vals + f.vals, direct.vals, virt.vals);
  }

  lemma FourScans(d: Image, p: nat)
    ensures var a := U.Scan(d, p);
      var b := U.Scan(d, a.pos);
      var c := U.Scan(d, b.pos);
      var e := U.Scan(d, c.pos);
      U.ScanN(d, p, 4) == U.Nums([a.value, b.value, c.value, e.value], e.pos)
  {
    hide U.Scan;
    var a := U.Scan(d, p);
    ScanTriple(d, p, 1);
    var c := U.Scan(d, U.Scan(d, a.pos).pos);
    assert U.ScanN(d, c.pos, 1).vals == [U.Scan(d, c.pos).value] + U.ScanN(d, U.Scan(d, c.pos).pos, 0).vals;
  }

  /** A class data block rebuilt: its bytes and how many methods were recovered. */
  method RebuildClassData(d: Image, off: nat, offs: map<nat, u32>) returns (blk: seq<byte>, hits: nat)
    ensures blk == U.WriteN(R.Rewrite(d, off, offs).vals) && hits == R.Rewrite(d, off, offs).hits
  {
    hide U.Scan, U.ScanN, U.WriteN, U.Write, R.Patch, R.Hits, ScanData, Directs, Virtuals;
    FourScans(d, off);
    ScanStages(d, off);
    ghost var c := U.ScanN(d, off, 4).vals;
    var p: nat := off;
    var staticFields: int, instanceFields: int, directCount: int, virtCount: int;
    staticFields, p := ScanUleb(d, p);
    instanceFields, p := ScanUleb(d, p);
    directCount, p := ScanUleb(d, p);
    virtCount, p := ScanUleb(d, p);
    blk := U.WriteUleb([], staticFields);
    blk := U.WriteUleb(blk, instanceFields);
    blk := U.WriteUleb(blk, directCount);
    blk := U.WriteUleb(blk, virtCount);
    WriteFour(staticFields, instanceFields, directCount, virtCount);
    ghost var s := U.ScanN(d, p, 2 * staticFields);
    p, blk := CopyNums(d, p, 2 * staticFields, blk);
    ghost var f := U.ScanN(d, p, 2 * instanceFields);
    p, blk := CopyNums(d, p, 2 * instanceFields, blk);
    assert blk == U.WriteN(c) + U.WriteN(s.vals) + U.WriteN(f.vals);
    ghost var direct := U.ScanN(d, p, 3 * directCount);
    var hits0, hits1;
    p, blk, hits0 := PatchGroup(d, p, directCount, blk, offs);
    ghost var virt := U.ScanN(d, p, 3 * virtCount);
    p, blk, hits1 := PatchGroup(d, p, virtCount, blk, offs);
    hits := hits0 + hits1;
    WriteStages(c, s.vals, f.vals, R.Patch(direct.vals, 0, offs), R.Patch(virt.vals, 0, offs));
  }

  lemma WriteFour(a: u32, b: u32, c: u32, e: u32)
    ensures [] + U.Write(a) + U.Write(b) + U.Write(c) + U.Write(e) == U.WriteN([a, b, c, e])
  {
    hide U.Write, U.WriteN;
    WriteThree([], a, b, c, [e]);
    assert [a, b, c] + [e] == [a, b, c, e];
    WriteOne(e);
    var lead := [] + U.Write(a) + U.Write(b) + U.Write(c);
    assert [] + U.WriteN([a, b, c, e]) == lead + U.Write(e);
  }

  lemma WriteOne(e: u32)
    ensures U.WriteN([e]) == U.Write(e)
  {
    hide U.Write;
    assert U.WriteN([e]) == U.Write(e) + U.WriteN([]);
  }

  lemma WriteStages(c: seq<u32>, s: seq<u32>, f: seq<u32>, direct: seq<u32>, virt: seq<u32>)
    ensures U.WriteN(c) + U.WriteN(s) + U.WriteN(f) + U.WriteN(direct) + U.WriteN(virt) ==
      U.WriteN(c + s + f + direct + virt)
  {
    hide U.WriteN;
    U.WriteNConcat(c, s);
    U.WriteNConcat(c + s, f);
    U.WriteNConcat(c + s + f, direct);
    U.WriteNConcat(c + s + f + direct, virt);
  }

  class DexRebuilder {
    var d: Image
    var recovered: map<nat, seq<byte>>
    var patchedMethods: nat
    var patchedClasses: nat

    constructor (dex: Image)
      ensures d == dex && recovered == map[] && patchedMethods == 0 && patchedClasses == 0
    {
      d, recovered, patchedMethods, patchedClasses := dex, map[], 0, 0;
    }

    method SetCode(idx: nat, code: seq<byte>)
      modifies this`recovered
      ensures recovered == old(recovered)[idx := code]
    {
      recovered := recovered[idx := code];
    }

    method Align(tail0: seq<byte>) returns (tail: seq<byte>)
      ensures tail == tail0 + R.Pad(|d| + |tail0|)
    {
      tail := tail0;
      ghost var want := |R.Pad(|d| + |tail0|)|;
      while (|d| + |tail|) % 4 != 0
        invariant |tail0| <= |tail| <= |tail0| + want && tail == tail0 + Zeros(|tail| - |tail0|)
        decreases |tail0| + want - |tail|
      {
        tail := tail + [0];
      }
      assert Zeros(|tail| - |tail0|) == R.Pad(|d| + |tail0|);
    }

    static ghost function Zeros(n: nat): seq<byte> { seq(n, i => 0) }

    method PlaceCodes() returns (tail: seq<byte>, offs: map<nat, u32>)
      ensures R.Placed(tail, offs) == R.PlaceAll(|d|, R.Placed([], map[]), Ascending(recovered.Keys), recovered)
    {
      hide Ascending, R.Pad;
      var keys := Ascending(recovered.Keys);
      tail, offs := [], map[];
      var i := 0;
      assert keys[0..] == keys;
      while i < |keys|
        invariant i <= |keys|
        invariant R.PlaceAll(|d|, R.Placed([], map[]), keys, recovered) ==
          R.PlaceAll(|d|, R.Placed(tail, offs), keys[i..], recovered)
      {
        assert keys[i..][1..] == keys[i + 1..];
        ghost var before := R.Placed(tail, offs);
        tail := Align(tail);
        offs := offs[keys[i] := (|d| + |tail|) % TWO32];
        tail := tail + recovered[keys[i]];
        assert R.Placed(tail, offs) == R.PlaceOne(|d|, before, keys[i], recovered[keys[i]]);
        i := i + 1;
      }
    }

    ghost function Linking(tail: seq<byte>): R.Link
      reads this
    {
      R.Link(d, tail, patchedMethods, patchedClasses)
    }

    method RelinkClass(tail0: seq<byte>, offs: map<nat, u32>, def: nat) returns (tail: seq<byte>)
      requires def + CLASS_DEF <= |d|
      modifies this`d, this`patchedMethods, this`patchedClasses
      ensures Linking(tail) == R.RelinkClass(old(Linking(tail0)), offs, def)
    {
      hide Word32, Put32, R.Rewrite, U.WriteN, R.Pad;
      tail := tail0;
      var off := Word32(d, def + DATA_SLOT);
      if off == 0 || off >= |d| {
        return;
      }
      var blk, hits := RebuildClassData(d, off, offs);
      if hits > 0 {
        tail := Align(tail);
        var nbo := (|d| + |tail|) % TWO32;
        tail := tail + blk;
        d := Put32(d, def + DATA_SLOT, nbo);
        patchedMethods := patchedMethods + hits;
        patchedClasses := patchedClasses + 1;
      }
    }

    method FixHeader(tail: seq<byte>, h: R.Hashes)
      requires |d| >= HEADER && R.HashesOk(h)
      modifies this`d
      ensures d == R.Finish(old(d), tail, h)
    {
      hide Word32, Put32, LE.Splice;
      d := d + tail;
      d := Put32(d, 0x20, |d| % TWO32);
      d := Put32(d, 0x68, (|d| - Word32(d, 0x6c)) % TWO32);
      d := LE.Splice(d, 0x0c, h.sha1(d[0x20..]));
      d := Put32(d, 0x08, h.adler(d[0x0c..]));
    }

    /** The whole rebuild; the counters say how many methods and classes it patched. */
    method Build(h: R.Hashes) returns (out: Image)
      requires R.HashesOk(h)
      modifies this`d, this`patchedMethods, this`patchedClasses
      ensures out == R.Build(old(d), recovered, h)
      ensures Accepts(old(d)) ==> d == out
      ensures Accepts(old(d)) ==> patchedMethods == R.Linked(old(d), recovered).methods
      ensures Accepts(old(d)) ==> patchedClasses == R.Linked(old(d), recovered).classes
    {
      hide Word32, R.Finish, R.PlaceAll, R.RelinkClass;
      patchedMethods, patchedClasses := 0, 0;
      if |d| < HEADER || d[..4] != MAGIC {
        return [];
      }
      var n, base := Word32(d, 0x60), Word32(d, 0x64);
      if base + n * CLASS_DEF > |d| {
        return [];
      }
      var tail, offs := PlaceCodes();
      ghost var final := R.RelinkFrom(Linking(tail), offs, base, 0, n);
      for i := 0 to n
        invariant |d| == |old(d)| && R.RelinkFrom(Linking(tail), offs, base, i, n) == final
      {
        tail := RelinkClass(tail, offs, base + i * CLASS_DEF);
      }
      FixHeader(tail, h);
      out := d;
    }
  }
}

// What the rebuilder computes: recovered code items and rewritten class data are
// appended, class definitions are repointed, and the header is fixed up.

module DexRebuild {
  import opened Common
  import LE = LittleEndian
  import opened Uleb128
  import opened DexModel

  type Codes = map<nat, seq<byte>>

  /** SHA-1 and Adler-32, whatever they compute. */
  datatype Hashes = Hashes(sha1: seq<byte> -> seq<byte>, adler: seq<byte> -> u32)

  ghost predicate HashesOk(h: Hashes) {
    forall s :: |h.sha1(s)| == 20
  }

  function Pad(n: nat): (z: seq<byte>)
    ensures (n + |z|) % 4 == 0 && |z| < 4 && forall i :: 0 <= i < |z| ==> z[i] == 0
  {
    seq((4 - n % 4) % 4, i => 0)
  }

  // ----- 1. code items -----

  datatype Placed = Placed(tail: seq<byte>, offs: map<nat, u32>)

  function PlaceOne(size: nat, t: Placed, key: nat, code: seq<byte>): Placed {
    var tail := t.tail + Pad(size + |t.tail|);
    Placed(tail + code, t.offs[key := (size + |tail|) % TWO32])
  }

  /** In key order, the way std::map iterates. */
  function PlaceAll(size: nat, t: Placed, keys: seq<nat>, codes: Codes): (r: Placed)
    requires forall k :: k in keys ==> k in codes
    decreases |keys|
  {
    if keys == [] then t else PlaceAll(size, PlaceOne(size, t, keys[0], codes[keys[0]]), keys[1..], codes)
  }

  // ----- 2. class data -----

  predicate IsNative(access: u32) { access / ACC_NATIVE % 2 == 1 }

  predicate Recovers(offs: map<nat, u32>, idx: u32, access: u32) {
    idx in offs && IsNative(access)
  }

  /** Encoded methods with native flags cleared and code offsets set where recovered. */
  function Patch(vals: seq<u32>, acc: u32, offs: map<nat, u32>): (r: seq<u32>)
    requires |vals| % 3 == 0
    ensures |r| == |vals|
    decreases |vals|
  {
    if vals == [] then []
    else
      var idx := (acc + vals[0]) % TWO32;
      var m := if Recovers(offs, idx, vals[1]) then [vals[0], vals[1] - ACC_NATIVE, offs[idx]] else vals[..3];
      m + Patch(vals[3..], idx, offs)
  }

  function Hits(vals: seq<u32>, acc: u32, offs: map<nat, u32>): (n: nat)
    requires |vals| % 3 == 0
    decreases |vals|
  {
    if vals == [] then 0
    else
      var idx := (acc + vals[0]) % TWO32;
      (if Recovers(offs, idx, vals[1]) then 1 else 0) + Hits(vals[3..], idx, offs)
  }

  datatype Rewritten = Rewritten(vals: seq<u32>, hits: nat)

  function Rewrite(d: Image, off: nat, offs: map<nat, u32>): (r: Rewritten) {
    var vals := ScanData(d, off).vals;
    var c := ScanN(d, off, 4).vals;
    var direct, virt := Directs(vals, c), Virtuals(vals, c);
    var fixed := vals[..|vals| - MethodNums(c)];
    Rewritten(fixed + Patch(direct, 0, offs) + Patch(virt, 0, offs), Hits(direct, 0, offs) + Hits(virt, 0, offs))
  }

  datatype Link = Link(d: Image, tail: seq<byte>, methods: nat, classes: nat)

  /** One class definition: rewrite its class data if a method in it was recovered. */
  function RelinkClass(l: Link, offs: map<nat, u32>, def: nat): (r: Link)
    requires def + CLASS_DEF <= |l.d|
    ensures |r.d| == |l.d|
  {
    var off := Word32(l.d, def + DATA_SLOT);
    if off == 0 || off >= |l.d| then l
    else
      var w := Rewrite(l.d, off, offs);
      if w.hits == 0 then l
      else
        var tail := l.tail + Pad(|l.d| + |l.tail|);
        Link(Put32(l.d, def + DATA_SLOT, (|l.d| + |tail|) % TWO32), tail + WriteN(w.vals),
             l.methods + w.hits, l.classes + 1)
  }

  /** Class definitions i, i+1, ..., n-1; base is class_defs_off. */
  function RelinkFrom(l: Link, offs: map<nat, u32>, base: nat, i: nat, n: nat): (r: Link)
    requires base + n * CLASS_DEF <= |l.d|
    ensures |r.d| == |l.d|
    decreases n - i
  {
    if i >= n then l
    else RelinkFrom(RelinkClass(l, offs, base + i * CLASS_DEF), offs, base, i + 1, n)
  }

  // ----- 3. header -----

  function Finish(d: Image, tail: seq<byte>, h: Hashes): (r: Image)
    requires |d| >= HEADER && HashesOk(h)
    ensures |r| == |d| + |tail|
  {
    var d1 := d + tail;
    var d2 := Put32(d1, 0x20, |d1| % TWO32);
    var d3 := Put32(d2, 0x68, (|d2| - Word32(d2, 0x6c)) % TWO32);
    var d4 := LE.Splice(d3, 0x0c, h.sha1(d3[0x20..]));
    Put32(d4, 0x08, h.adler(d4[0x0c..]))
  }

  function Offsets(d: Image, codes: Codes): map<nat, u32> {
    PlaceAll(|d|, Placed([], map[]), Ascending(codes.Keys), codes).offs
  }

  /** The code items are placed, the class definitions still to do. */
  function Placing(d: Image, codes: Codes): Link {
    Link(d, PlaceAll(|d|, Placed([], map[]), Ascending(codes.Keys), codes).tail, 0, 0)
  }

  function Linked(d: Image, codes: Codes): (l: Link)
    requires Accepts(d)
    ensures |l.d| == |d|
  {
    RelinkFrom(Placing(d, codes), Offsets(d, codes), DefsOff(d), 0, DefsSize(d))
  }

  /** The relinked DEX; empty for a file that is no DEX. */
  function Build(d: Image, codes: Codes, h: Hashes): (r: Image)
    requires HashesOk(h)
  {
    if !Accepts(d) then [] else Finish(Linked(d, codes).d, Linked(d, codes).tail, h)
  }

  // ----- header fixed point -----

  /** The check made after the rebuild: stored signature and checksum match. */
  predicate Verifies(d: Image, h: Hashes) {
    |d| >= 0x20 && h.sha1(d[0x20..]) == d[0x0c..0x20] && Word32(d, 0x08) == h.adler(d[0x0c..])
  }

  lemma FinishVerifies(d: Image, tail: seq<byte>, h: Hashes)
    requires |d| >= HEADER && HashesOk(h)
    ensures Verifies(Finish(d, tail, h), h)
  {
    hide Word32, Put32, LE.Splice;
    var d1 := d + tail;
    var d2 := Put32(d1, 0x20, |d1| % TWO32);
    var d3 := Put32(d2, 0x68, (|d2| - Word32(d2, 0x6c)) % TWO32);
    var sig := h.sha1(d3[0x20..]);
    var d4 := LE.Splice(d3, 0x0c, sig);
    var d5 := Put32(d4, 0x08, h.adler(d4[0x0c..]));
    assert d4[0x20..] == d3[0x20..];
    assert d5[0x20..] == d4[0x20..] && d5[0x0c..] == d4[0x0c..];
    assert d5[0x0c..0x20] == d4[0x0c..0x20];
    GetPut32(d4, 0x08, h.adler(d4[0x0c..]));
  }

  /** For any hash and checksum functions and any input, a rebuilt DEX passes the
      later check. */
  lemma BuildVerifies(d: Image, codes: Codes, h: Hashes)
    requires HashesOk(h) && Build(d, codes, h) != []
    ensures Verifies(Build(d, codes, h), h)
  {
    hide Linked, Finish, Verifies;
    FinishVerifies(Linked(d, codes).d, Linked(d, codes).tail, h);
  }

  // ----- what changes and what does not -----

  /** Bytes of the header that the fix-up may change. */
  predicate HeaderField(i: nat) { 0x08 <= i < 0x24 || 0x68 <= i < 0x6c }

  lemma FinishFrame(d: Image, tail: seq<byte>, h: Hashes, i: nat)
    requires |d| >= HEADER && HashesOk(h) && i < |d| + |tail| && !HeaderField(i)
    ensures Finish(d, tail, h)[i] == (d + tail)[i]
  {
    hide Word32, Put32, LE.Splice;
  }

  predicate InSlot(base: nat, j: nat, i: nat) {
    base + j * CLASS_DEF + DATA_SLOT <= i < base + j * CLASS_DEF + DATA_SLOT + 4
  }

  lemma RelinkClassFrame(l: Link, offs: map<nat, u32>, def: nat)
    requires def + CLASS_DEF <= |l.d|
    ensures var r := RelinkClass(l, offs, def);
      && (forall i :: 0 <= i < |l.d| && !(def + DATA_SLOT <= i < def + DATA_SLOT + 4) ==> r.d[i] == l.d[i])
      && l.tail <= r.tail && l.classes <= r.classes
      && (r.classes == l.classes ==> r == l)
  {
    hide Word32, Put32, Rewrite, WriteN;
  }

  /** The loop finds a method to recover in this class definition. */
  predicate Patches(l: Link, offs: map<nat, u32>, def: nat)
    requires def + CLASS_DEF <= |l.d|
  {
    var off := Word32(l.d, def + DATA_SLOT);
    0 < off < |l.d| && Rewrite(l.d, off, offs).hits > 0
  }

  /** A class definition is counted and repointed exactly if a method in it is recovered. */
  lemma PatchedIsCounted(l: Link, offs: map<nat, u32>, def: nat)
    requires def + CLASS_DEF <= |l.d|
    ensures var r := RelinkClass(l, offs, def);
      if Patches(l, offs, def) then r.classes == l.classes + 1 else r == l
  {
    hide Word32, Put32, Rewrite, WriteN;
  }

  /** Byte k is in the data offset of class j, and the loop, when it comes to class j,
      recovers a method in it. */
  ghost predicate InPatchedSlot(l: Link, offs: map<nat, u32>, base: nat, i: nat, j: nat, k: nat)
    requires i <= j && base + (j + 1) * CLASS_DEF <= |l.d|
  {
    InSlot(base, j, k) && Patches(RelinkFrom(l, offs, base, i, j), offs, base + j * CLASS_DEF)
  }

  /** The relinking loop appends to the tail and changes data offsets of patched classes
      only. */
  lemma {:induction false} RelinkFrame(l: Link, offs: map<nat, u32>, base: nat, i: nat, n: nat)
    requires base + n * CLASS_DEF <= |l.d|
    ensures var r := RelinkFrom(l, offs, base, i, n);
      && l.tail <= r.tail
      && (forall k :: 0 <= k < |l.d| && r.d[k] != l.d[k] ==>
            exists j :: i <= j < n && InPatchedSlot(l, offs, base, i, j, k))
    decreases n - i
  {
    hide RelinkClass, Patches;
    if i < n {
      var def := base + i * CLASS_DEF;
      var m := RelinkClass(l, offs, def);
      RelinkClassFrame(l, offs, def);
      PatchedIsCounted(l, offs, def);
      RelinkFrame(m, offs, base, i + 1, n);
      var r := RelinkFrom(l, offs, base, i, n);
      forall k | 0 <= k < |l.d| && r.d[k] != l.d[k]
        ensures exists j :: i <= j < n && InPatchedSlot(l, offs, base, i, j, k)
      {
        if m.d[k] != l.d[k] {
          assert RelinkFrom(l, offs, base, i, i) == l;
          assert InPatchedSlot(l, offs, base, i, i, k);
        } else {
          var j :| i + 1 <= j < n && InPatchedSlot(m, offs, base, i + 1, j, k);
          assert RelinkFrom(l, offs, base, i, j) == RelinkFrom(m, offs, base, i + 1, j);
          assert InPatchedSlot(l, offs, base, i, j, k);
        }
      }
    }
  }

  /** The frame, for every input: of the original bytes only the size, signature and
      checksum fields of the header and the class data offsets of patched classes can
      differ. */
  lemma BuildFrame(d: Image, codes: Codes, h: Hashes, k: nat)
    requires HashesOk(h) && Accepts(d) && k < |d|
    requires Build(d, codes, h)[k] != d[k]
    ensures HeaderField(k) || exists j ::
      0 <= j < DefsSize(d) && InPatchedSlot(Placing(d, codes), Offsets(d, codes), DefsOff(d), 0, j, k)
  {
    hide Finish, RelinkFrom, PlaceAll, InPatchedSlot;
    var l := Linked(d, codes);
    if !HeaderField(k) {
      FinishFrame(l.d, l.tail, h, k);
      RelinkFrame(Placing(d, codes), Offsets(d, codes), DefsOff(d), 0, DefsSize(d));
    }
  }
}

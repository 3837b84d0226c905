// 64-bit relocation: the effect of one RELA entry on guest memory, and the flat
// table reader that fetches each entry from the memory it is relocating.

module ElfReloc {
  import opened Common
  import opened LittleEndian

  type Image = seq<byte>

  const RELA_SIZE: nat := 24

  /** One Elf64_Rela; r_addend in two's complement. */
  datatype Rela = Rela(offset: u64, info: u64, addend: u64)

  datatype Kinds = Kinds(relative: nat, globDat: nat, jumpSlot: nat, abs: nat)

  /** What the loader knows: the load bias, the machine's relocation numbers, and how
      a symbol resolves given the memory at that moment. */
  datatype Loader = Loader(bias: u64, kinds: Kinds, resolve: (Image, nat) -> u64)

  function TypeOf(info: u64): nat { info % TWO32 }

  function SymOf(info: u64): nat { info / TWO32 }

  function Where(ld: Loader, r: Rela): (w: u64) { (ld.bias + r.offset) % TWO64 }

  /** The word an entry stores, if its type stores one. */
  function ValueOf(ld: Loader, mem: Image, r: Rela): (v: Option<u64>) {
    var ty := TypeOf(r.info);
    if ty == ld.kinds.relative then Some((ld.bias + r.addend) % TWO64)
    else if ty == ld.kinds.globDat || ty == ld.kinds.jumpSlot then Some(ld.resolve(mem, SymOf(r.info)))
    else if ty == ld.kinds.abs then Some((ld.resolve(mem, SymOf(r.info)) + r.addend) % TWO64)
    else None
  }

  /** Err is the engine's refusal to write outside mapped memory. */
  function ApplyOne(ld: Loader, mem: Image, r: Rela): (m: Result<Image>)
    ensures m.Ok? ==> |m.value| == |mem|
  {
    match ValueOf(ld, mem, r)
    case None => Ok(mem)
    case Some(v) => if InImage(mem, Where(ld, r), 8) then Ok(Put64(mem, Where(ld, r), v)) else Err
  }

  function ApplyAll(ld: Loader, mem: Image, rs: seq<Rela>): (m: Result<Image>)
    ensures m.Ok? ==> |m.value| == |mem|
    decreases |rs|
  {
    if rs == [] then Ok(mem)
    else match ApplyOne(ld, mem, rs[0])
         case Err => Err
         case Ok(mem') => ApplyAll(ld, mem', rs[1..])
  }

  function RelaAt(mem: Image, a: nat): (r: Rela)
    requires InImage(mem, a, RELA_SIZE)
  {
    Rela(Word64(mem, a), Word64(mem, a + 8), Word64(mem, a + 16))
  }

  /** apply_rela: entry i is read only after entries 0..i-1 have been applied. */
  function ApplyTable(ld: Loader, mem: Image, table: nat, n: nat): (m: Result<Image>)
    ensures m.Ok? ==> |m.value| == |mem|
    decreases n
  {
    if n == 0 then Ok(mem)
    else if !InImage(mem, table, RELA_SIZE) then Err
    else match ApplyOne(ld, mem, RelaAt(mem, table))
         case Err => Err
         case Ok(mem') => ApplyTable(ld, mem', table + RELA_SIZE, n - 1)
  }

  method ApplyRela(ld: Loader, mem0: Image, table: nat, bytes: nat) returns (res: Result<Image>)
    ensures res == ApplyTable(ld, mem0, table, bytes / RELA_SIZE)
  {
    var mem := mem0;
    var o := 0;
    ghost var i := 0;
    while o + RELA_SIZE <= bytes
      invariant o == RELA_SIZE * i && i <= bytes / RELA_SIZE
      invariant ApplyTable(ld, mem0, table, bytes / RELA_SIZE) == ApplyTable(ld, mem, table + o, bytes / RELA_SIZE - i)
    {
      if !InImage(mem, table + o, RELA_SIZE) {
        return Err;
      }
      var step := ApplyOne(ld, mem, RelaAt(mem, table + o));
      if step.Err? {
        return Err;
      }
      mem := step.value;
      o := o + RELA_SIZE;
      i := i + 1;
    }
    res := Ok(mem);
  }

  // ----- a table out of the way of its own slots -----

  /** The memory at `table` holds exactly the entries rs. */
  ghost predicate Holds(mem: Image, table: nat, rs: seq<Rela>) {
    InImage(mem, table, RELA_SIZE * |rs|) &&
    forall i :: 0 <= i < |rs| ==> RelaAt(mem, table + RELA_SIZE * i) == rs[i]
  }

  ghost predicate SlotsMiss(ld: Loader, rs: seq<Rela>, table: nat, size: nat) {
    forall i :: 0 <= i < |rs| ==> Where(ld, rs[i]) + 8 <= table || table + size <= Where(ld, rs[i])
  }

  lemma WriteKeepsEntry(ld: Loader, mem: Image, r: Rela, a: nat)
    requires ApplyOne(ld, mem, r).Ok? && InImage(mem, a, RELA_SIZE)
    requires Where(ld, r) + 8 <= a || a + RELA_SIZE <= Where(ld, r)
    ensures RelaAt(ApplyOne(ld, mem, r).value, a) == RelaAt(mem, a)
  {
    hide ValueOf, Put64, Where, Decode;
    var mem' := ApplyOne(ld, mem, r).value;
    assert forall i :: a <= i < a + RELA_SIZE ==> mem'[i] == mem[i];
    SliceFrame(mem, mem', a, 8);
    SliceFrame(mem, mem', a + 8, 8);
    SliceFrame(mem, mem', a + 16, 8);
  }

  lemma StepKeepsTable(ld: Loader, mem: Image, table: nat, rs: seq<Rela>)
    requires rs != [] && Holds(mem, table, rs) && SlotsMiss(ld, rs, table, RELA_SIZE * |rs|)
    requires ApplyOne(ld, mem, rs[0]).Ok?
    ensures Holds(ApplyOne(ld, mem, rs[0]).value, table + RELA_SIZE, rs[1..])
    ensures SlotsMiss(ld, rs[1..], table + RELA_SIZE, RELA_SIZE * |rs[1..]|)
  {
    hide ApplyOne, RelaAt, Where;
    var mem' := ApplyOne(ld, mem, rs[0]).value;
    var rest := rs[1..];
    forall i | 0 <= i < |rest| ensures RelaAt(mem', table + RELA_SIZE + RELA_SIZE * i) == rest[i] {
      WriteKeepsEntry(ld, mem, rs[0], table + RELA_SIZE * (i + 1));
    }
  }

  /** If no relocated slot lies inside the table, reading entries one by one while
      relocating is the same as relocating by the list the table held at the start. */
  lemma {:induction false} TableIsList(ld: Loader, mem: Image, table: nat, rs: seq<Rela>)
    requires Holds(mem, table, rs) && SlotsMiss(ld, rs, table, RELA_SIZE * |rs|)
    ensures ApplyTable(ld, mem, table, |rs|) == ApplyAll(ld, mem, rs)
    decreases |rs|
  {
    hide ApplyOne, RelaAt, Where;
    if rs != [] {
      assert RelaAt(mem, table + RELA_SIZE * 0) == rs[0];
      if ApplyOne(ld, mem, rs[0]).Ok? {
        StepKeepsTable(ld, mem, table, rs);
        TableIsList(ld, ApplyOne(ld, mem, rs[0]).value, table + RELA_SIZE, rs[1..]);
      }
    }
  }

  lemma {:induction false} ApplyAllConcat(ld: Loader, mem: Image, rs: seq<Rela>, qs: seq<Rela>)
    ensures ApplyAll(ld, mem, rs + qs) ==
      match ApplyAll(ld, mem, rs) case Err => Err case Ok(mem') => ApplyAll(ld, mem', qs)
    decreases |rs|
  {
    hide ApplyOne;
    if rs == [] {
      assert rs + qs == qs;
    } else {
      assert (rs + qs)[1..] == rs[1..] + qs;
      if ApplyOne(ld, mem, rs[0]).Ok? {
        ApplyAllConcat(ld, ApplyOne(ld, mem, rs[0]).value, rs[1..], qs);
      }
    }
  }
}

// The devirtualiser's loops, and the promise that its bodies need sixteen registers.

module Devirt {
  import opened Common
  import opened DevirtModel
  import Asm = DalvikAsm

  lemma KeptSnoc(rows: seq<Record>, s: Record)
    ensures Kept(rows + [s]) == Kept(rows) + if s.op == SKIPPED then [] else [s]
  {
    if rows != [] {
      assert (rows + [s])[1..] == rows[1..] + [s];
      KeptSnoc(rows[1..], s);
    }
  }

  method CollectKept(rows: seq<Record>) returns (kept: seq<Record>)
    ensures kept == Kept(rows)
  {
    kept := [];
    for i := 0 to |rows|
      invariant kept == Kept(rows[..i])
    {
      assert rows[..i + 1] == rows[..i] + [rows[i]];
      KeptSnoc(rows[..i], rows[i]);
      if rows[i].op != SKIPPED {
        kept := kept + [rows[i]];
      }
    }
    assert rows[..|rows|] == rows;
  }

  /** Decode every record, then repair branch targets in place. */
  method DecodeMethod(rows: seq<Record>, fams: Families) returns (dec: seq<VmInstr>)
    ensures dec == VmCode(rows, fams)
  {
    hide Decode, Sanitise, Kept;
    var kept := CollectKept(rows);
    var p2i: map<int, nat> := map[];
    for i := 0 to |kept|
      invariant p2i == IndexTo(kept, i)
    {
      p2i := p2i[kept[i].p := i];
    }
    dec := [];
    for i := 0 to |kept|
      invariant |dec| == i && forall j :: 0 <= j < i ==> dec[j] == Decode(kept[j], fams, p2i)
    {
      dec := dec + [Decode(kept[i], fams, p2i)];
    }
    var n := |dec|;
    ghost var raw := dec;
    for i := 0 to n
      invariant |dec| == n
      invariant forall j :: 0 <= j < i ==> dec[j] == Sanitise(raw[j], j, n)
      invariant forall j :: i <= j < n ==> dec[j] == raw[j]
    {
      dec := RepairOne(dec, i);
    }
  }

  method RepairOne(dec: seq<VmInstr>, i: nat) returns (r: seq<VmInstr>)
    requires i < |dec|
    ensures r == dec[i := Sanitise(dec[i], i, |dec|)]
  {
    r := dec;
    var d := dec[i];
    var n := |dec|;
    var isIf, isGoto := IsIf(d.family), IsGoto(d.family);
    if !isIf && !isGoto {
      return;
    }
    if d.target.Some? && 0 <= d.target.value < n && d.target.value != i {
      return;
    }
    if isIf && i + 1 < n {
      r := dec[i := d.(target := Some(i + 1))];
    } else {
      r := dec[i := d.(family := "nop", target := None)];
    }
  }

  /** Trace to code units. */
  method Recover(rows: seq<Record>, fams: Families) returns (units: seq<u16>)
    ensures units == Asm.Assemble(Body(rows, fams))
  {
    hide ToDalvik, VmCode, Asm.Assemble;
    var vm := DecodeMethod(rows, fams);
    var di: Asm.Program := [];
    for i := 0 to |vm|
      invariant |di| == i && forall j :: 0 <= j < i ==> di[j] == ToDalvik(vm[j])
    {
      di := di + [ToDalvik(vm[i])];
    }
    assert di == Body(rows, fams);
    units := Asm.AssembleProgram(di);
  }
}

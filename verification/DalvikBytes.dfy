// What the interpreter does on the bytes of an instruction, opcode by opcode: registers,
// program counter, result and calls out, in plain terms.

module DalvikBytes {
  import opened Common
  import opened DexModel
  import opened DalvikIsa
  import opened DalvikVm
  import A = DalvikArith
  import LE = LittleEndian

  // ----- reading the statements -----

  /** The machine stands at an instruction of `width` units whose bytes are d[a..]. */
  ghost predicate Here(d: Image, code: Code, m: Machine, a: nat, width: nat) {
    && code.valid && Runnable(d, code) && |d| <= TWO32
    && m.pc < code.insnsSize && a == code.insnsOff + 2 * m.pc && a + 2 * width <= |d| && width >= 1
  }

  /** A number below `size` as a two's complement one. */
  function Signed(u: nat, size: nat): int
    requires u < size
  {
    if 2 * u < size then u else u - size
  }

  function Low(b: byte): nat { b % 16 }

  function High(b: byte): nat { b / 16 }

  function Half(d: Image, o: nat): nat
    requires o + 2 <= |d|
  {
    d[o] + 0x100 * (d[o + 1] as int)
  }

  function Full(d: Image, o: nat): nat
    requires o + 4 <= |d|
  {
    Half(d, o) + 0x1_0000 * Half(d, o + 2)
  }

  predicate Has(m: Machine, r: nat) { r < |m.core.regs| }

  /** The program counter moves by n units. */
  function Moved(m: Machine, n: int): Machine { m.(pc := (m.pc + n) % TWO32) }

  /** Register r gets v and the next instruction, n units on, is next. */
  function Puts(m: Machine, n: int, r: nat, v: u64): Outcome {
    if Has(m, r) then Running(Moved(m, n).(core := m.core.(regs := m.core.regs[r := v]))) else Faulted
  }

  function Asked(m: Machine, call: Call): Machine { m.(core := m.core.(log := m.core.log + [call])) }

  /** A call out whose answer goes to register r. */
  function AsksFor(env: Env, m: Machine, n: int, r: nat, call: Call): Outcome {
    Puts(Asked(m, call), n, r, env.host(m.core.log, call))
  }

  lemma Fetches(d: Image, code: Code, m: Machine, a: nat, width: nat)
    requires Here(d, code, m, a, width)
    ensures (code.insnsOff + m.pc * 2) % TWO32 == a && a + 1 < |d|
    ensures Fetch(d, a).op == d[a] && Fetch(d, a).b1 == d[a + 1]
    ensures width >= 2 ==> Fetch(d, a).w1 == Half(d, a + 2)
    ensures width >= 3 ==> Fetch(d, a).w2 == Half(d, a + 4) && Fetch(d, a).dw == Full(d, a + 2)
  {
    hide Word32;
    if width >= 3 { FullWord(d, a + 2); }
  }

  lemma FullWord(d: Image, o: nat)
    requires o + 4 <= |d|
    ensures Word32(d, o) == Full(d, o)
  {
    var s := d[o..o + 4];
    assert s[1..][1..] == s[2..] && s[2..][1..] == s[3..] && s[3..][1..] == [];
    assert LE.Decode(s) == s[0] + 256 * (s[1] + 256 * LE.Decode(s[2..]));
    assert LE.Decode(s[2..]) == s[2] + 256 * (s[3] + 256 * LE.Decode([]));
  }

  lemma SextIsSigned(u: nat, half: int)
    requires half > 0 && u < 2 * half
    ensures Sext(u, half) == Signed(u, 2 * half)
  {
    ModUnique(u, 2 * half, 0, u);
  }

  /** A turn is the decoded instruction carried out. */
  lemma TurnIs(env: Env, d: Image, code: Code, m: Machine, a: nat, x: Decoded)
    requires Here(d, code, m, a, 1) && Decode(Fetch(d, a)) == x
    ensures Step(env, d, code, m) == After(env, m, x)
  {
    hide Fetch, Decode, After;
    Fetches(d, code, m, a, 1);
  }

  // ----- branches -----

  /** The six comparisons, in opcode order: eq, ne, lt, ge, gt, le. */
  predicate Compares(k: int, x: int, y: int) {
    || (k == 0 && x == y) || (k == 1 && x != y) || (k == 2 && x < y)
    || (k == 3 && x >= y) || (k == 4 && x > y) || (k == 5 && x <= y)
  }

  /** if-test vA, vB: signed comparison of two registers. */
  lemma TestTwo(env: Env, d: Image, code: Code, m: Machine, a: nat)
    requires Here(d, code, m, a, 2) && 0x32 <= d[a] <= 0x37
    ensures var x, y, off := Low(d[a + 1]), High(d[a + 1]), Signed(Half(d, a + 2), 0x1_0000);
      Step(env, d, code, m) ==
        if !Has(m, x) || !Has(m, y) then Faulted
        else
          var p, q := Signed(m.core.regs[x], TWO64), Signed(m.core.regs[y], TWO64);
          Running(Moved(m, if Compares(d[a] - 0x32, p, q) && off != 0 then off else 2))
  {
    hide Sext, Fetch, DecodeHigh, Step;
    Fetches(d, code, m, a, 2);
    TurnIs(env, d, code, m, a, Decode(Fetch(d, a)));
    SextIsSigned(Half(d, a + 2), HALF16);
    var x, y := Low(d[a + 1]), High(d[a + 1]);
    if Has(m, x) { SextIsSigned(m.core.regs[x], HALF64); }
    if Has(m, y) { SextIsSigned(m.core.regs[y], HALF64); }
  }

  /** if-testz vAA: signed comparison of a register with zero. */
  lemma TestZero(env: Env, d: Image, code: Code, m: Machine, a: nat)
    requires Here(d, code, m, a, 2) && 0x38 <= d[a] <= 0x3d
    ensures var x, off := d[a + 1], Signed(Half(d, a + 2), 0x1_0000);
      Step(env, d, code, m) ==
        if !Has(m, x) then Faulted
        else
          var p := Signed(m.core.regs[x], TWO64);
          Running(Moved(m, if Compares(d[a] - 0x38, p, 0) && off != 0 then off else 2))
  {
    hide Sext, Fetch, DecodeHigh, Step;
    Fetches(d, code, m, a, 2);
    TurnIs(env, d, code, m, a, Decode(Fetch(d, a)));
    SextIsSigned(Half(d, a + 2), HALF16);
    if Has(m, d[a + 1]) { SextIsSigned(m.core.regs[d[a + 1]], HALF64); }
  }

  /** goto, goto/16, goto/32: a zero distance ends the method for the short form only. */
  lemma Jump(env: Env, d: Image, code: Code, m: Machine, a: nat)
    requires Here(d, code, m, a, 1) && 0x28 <= d[a] <= 0x2a
    requires d[a] == 0x29 ==> a + 4 <= |d|
    requires d[a] == 0x2a ==> a + 6 <= |d|
    ensures Step(env, d, code, m) ==
      if d[a] == 0x28 then
        var off := Signed(d[a + 1], 0x100);
        if off == 0 then Returned(m.core.result, m.core.log) else Running(Moved(m, off))
      else if d[a] == 0x29 then
        var off := Signed(Half(d, a + 2), 0x1_0000);
        Running(Moved(m, if off == 0 then 2 else off))
      else
        var off := Signed(Full(d, a + 2), TWO32);
        Running(Moved(m, if off == 0 then 3 else off))
  {
    hide Sext, Fetch, DecodeHigh, Step;
    Fetches(d, code, m, a, if d[a] == 0x28 then 1 else if d[a] == 0x29 then 2 else 3);
    TurnIs(env, d, code, m, a, Decode(Fetch(d, a)));
    SextIsSigned(d[a + 1], HALF8);
    if d[a] == 0x29 { SextIsSigned(Half(d, a + 2), HALF16); }
    if d[a] == 0x2a { SextIsSigned(Full(d, a + 2), HALF32); }
  }

  // ----- moves and constants -----

  function Copies(m: Machine, n: int, dst: nat, src: nat): Outcome {
    if Has(m, src) then Puts(m, n, dst, m.core.regs[src]) else Faulted
  }

  lemma MoveShort(env: Env, d: Image, code: Code, m: Machine, a: nat)
    requires Here(d, code, m, a, 1) && d[a] in [0x01, 0x04, 0x07]
    ensures Step(env, d, code, m) == Copies(m, 1, Low(d[a + 1]), High(d[a + 1]))
  {
    hide Fetch, DecodeHigh, Sext, Step;
    Fetches(d, code, m, a, 1);
    TurnIs(env, d, code, m, a, Decode(Fetch(d, a)));
  }

  lemma MoveFrom16(env: Env, d: Image, code: Code, m: Machine, a: nat)
    requires Here(d, code, m, a, 2) && d[a] in [0x02, 0x05, 0x08]
    ensures Step(env, d, code, m) == Copies(m, 2, d[a + 1], Half(d, a + 2))
  {
    hide Fetch, DecodeHigh, Sext, Step;
    Fetches(d, code, m, a, 2);
    TurnIs(env, d, code, m, a, Decode(Fetch(d, a)));
  }

  lemma Move16(env: Env, d: Image, code: Code, m: Machine, a: nat)
    requires Here(d, code, m, a, 3) && d[a] in [0x03, 0x06, 0x09]
    ensures Step(env, d, code, m) == Copies(m, 3, Half(d, a + 2), Half(d, a + 4))
  {
    hide Fetch, DecodeHigh, Sext, Step;
    Fetches(d, code, m, a, 3);
    TurnIs(env, d, code, m, a, Decode(Fetch(d, a)));
  }

  lemma MoveResult(env: Env, d: Image, code: Code, m: Machine, a: nat)
    requires Here(d, code, m, a, 1) && 0x0a <= d[a] <= 0x0c
    ensures Step(env, d, code, m) == Puts(m, 1, d[a + 1], m.core.result)
  {
    hide Fetch, DecodeHigh, Sext, Step;
    Fetches(d, code, m, a, 1);
    TurnIs(env, d, code, m, a, Decode(Fetch(d, a)));
  }

  lemma ConstFour(env: Env, d: Image, code: Code, m: Machine, a: nat)
    requires Here(d, code, m, a, 1) && d[a] == 0x12
    ensures Step(env, d, code, m) == Puts(m, 1, Low(d[a + 1]), Signed(High(d[a + 1]), 16) % TWO64)
  {
    hide Fetch, DecodeHigh, Sext, Step;
    Fetches(d, code, m, a, 1);
    TurnIs(env, d, code, m, a, Decode(Fetch(d, a)));
    SextIsSigned(High(d[a + 1]), HALF4);
  }

  /** const/16 and const-wide/16 sign-extend; the high16 forms shift by 16 and by 48. */
  lemma ConstSixteen(env: Env, d: Image, code: Code, m: Machine, a: nat)
    requires Here(d, code, m, a, 2) && d[a] in [0x13, 0x16, 0x15, 0x19]
    ensures var v, shift := Signed(Half(d, a + 2), 0x1_0000),
                            if d[a] == 0x15 then 0x1_0000 else if d[a] == 0x19 then 0x1_0000_0000_0000 else 1;
      Step(env, d, code, m) == Puts(m, 2, d[a + 1], v * shift % TWO64)
  {
    hide Fetch, DecodeHigh, Sext, Step;
    Fetches(d, code, m, a, 2);
    TurnIs(env, d, code, m, a, Decode(Fetch(d, a)));
    SextIsSigned(Half(d, a + 2), HALF16);
  }

  lemma ConstThirtyTwo(env: Env, d: Image, code: Code, m: Machine, a: nat)
    requires Here(d, code, m, a, 3) && d[a] in [0x14, 0x17]
    ensures Step(env, d, code, m) == Puts(m, 3, d[a + 1], Signed(Full(d, a + 2), TWO32) % TWO64)
  {
    hide Fetch, DecodeHigh, Sext, Step;
    Fetches(d, code, m, a, 3);
    TurnIs(env, d, code, m, a, Decode(Fetch(d, a)));
    SextIsSigned(Full(d, a + 2), HALF32);
  }

  lemma ConstWide(env: Env, d: Image, code: Code, m: Machine, a: nat)
    requires Here(d, code, m, a, 5) && d[a] == 0x18
    ensures Step(env, d, code, m) == Puts(m, 5, d[a + 1], Full(d, a + 2) + TWO32 * Full(d, a + 6))
  {
    hide Word32, DecodeHigh, Sext, LE.Word64;
    Fetches(d, code, m, a, 5);
    WideWord(d, a + 2);
  }

  lemma WideWord(d: Image, o: nat)
    requires o + 8 <= |d|
    ensures LE.Word64(d, o) == Full(d, o) + TWO32 * Full(d, o + 4)
  {
    hide LE.Decode;
    FullWord(d, o);
    FullWord(d, o + 4);
    assert d[o..o + 8] == d[o..o + 4] + d[o + 4..o + 8];
    LowAndHigh(d[o..o + 4], d[o + 4..o + 8]);
  }

  lemma LowAndHigh(s: seq<byte>, t: seq<byte>)
    requires |s| == 4
    ensures LE.Decode(s + t) == LE.Decode(s) + TWO32 * LE.Decode(t)
  {
    var u := s + t;
    assert u[1..] == s[1..] + t && u[1..][1..] == s[2..] + t && u[1..][1..][1..] == s[3..] + t;
    assert u[1..][1..][1..][1..] == t;
    assert s[1..][1..] == s[2..] && s[1..][1..][1..] == s[3..] && s[1..][1..][1..][1..] == [];
    FourDigits(u, LE.Decode(t));
    FourDigits(s, 0);
  }

  lemma FourDigits(s: seq<byte>, rest: nat)
    requires |s| >= 4 && LE.Decode(s[1..][1..][1..][1..]) == rest
    ensures LE.Decode(s) == s[0] + 256 * (s[1] + 256 * (s[2] + 256 * (s[3] + 256 * rest)))
  {
    var s1 := s[1..];
    var s2 := s1[1..];
    var s3 := s2[1..];
    assert s1[0] == s[1] && s2[0] == s[2] && s3[0] == s[3];
    assert LE.Decode(s2) == s2[0] + 256 * LE.Decode(s3);
    assert LE.Decode(s) == s[0] + 256 * LE.Decode(s1);
  }

  /** const-class, cmp and instance-of store fixed values; the source calls them approximate. */
  lemma FixedValue(env: Env, d: Image, code: Code, m: Machine, a: nat)
    requires Here(d, code, m, a, 2) && (d[a] == 0x1c || d[a] == 0x20 || 0x2d <= d[a] <= 0x31)
    ensures Step(env, d, code, m) == if d[a] == 0x20 then Puts(m, 2, Low(d[a + 1]), 1) else Puts(m, 2, d[a + 1], 0)
  {
    hide Fetch, DecodeHigh, Sext, Step;
    Fetches(d, code, m, a, 2);
    TurnIs(env, d, code, m, a, Decode(Fetch(d, a)));
  }

  // ----- doing nothing and leaving -----

  lemma Skips(env: Env, d: Image, code: Code, m: Machine, a: nat)
    requires Here(d, code, m, a, 1) && d[a] in [0x00, 0x1d, 0x1e, 0x1f, 0x24, 0x25, 0x26, 0x2b, 0x2c]
    ensures Step(env, d, code, m) ==
      Running(Moved(m, if d[a] in [0x00, 0x1d, 0x1e] then 1 else if d[a] == 0x1f then 2 else 3))
  {
    hide Fetch, DecodeHigh, Sext, Step;
    Fetches(d, code, m, a, 1);
    TurnIs(env, d, code, m, a, Decode(Fetch(d, a)));
  }

  lemma Leaves(env: Env, d: Image, code: Code, m: Machine, a: nat)
    requires Here(d, code, m, a, 1) && 0x0e <= d[a] <= 0x11
    ensures Step(env, d, code, m) ==
      if d[a] == 0x0e then Returned(0, m.core.log)
      else if Has(m, d[a + 1]) then Returned(m.core.regs[d[a + 1]], m.core.log) else Faulted
  {
    hide Fetch, DecodeHigh, Sext, Step;
    Fetches(d, code, m, a, 1);
    TurnIs(env, d, code, m, a, Decode(Fetch(d, a)));
  }

  /** throw, and every opcode the interpreter does not know, end with the pending result. */
  lemma GivesUp(env: Env, d: Image, code: Code, m: Machine, a: nat)
    requires Here(d, code, m, a, 1)
    requires d[a] in [0x0d, 0x27, 0x73, 0x79, 0x7a] || 0x3e <= d[a] <= 0x43 || d[a] >= 0xe3
    ensures Step(env, d, code, m) == Returned(m.core.result, m.core.log)
  {
    hide Fetch, Sext, Step;
    Fetches(d, code, m, a, 1);
    TurnIs(env, d, code, m, a, Decode(Fetch(d, a)));
  }

  /** At the end of the code the pending result is the answer. */
  lemma RunsOut(env: Env, d: Image, code: Code, m: Machine)
    requires code.valid && Runnable(d, code) && m.pc >= code.insnsSize
    ensures Step(env, d, code, m) == Returned(m.core.result, m.core.log)
  {
  }

  // ----- calls to the host -----

  /** A 64-bit slot cut to a signed 32-bit number, as an array index or length. */
  function Narrow(u: u64): u64 { Signed(u % TWO32, TWO32) % TWO64 }

  /** Whether all these registers exist, and what they hold. */
  predicate HasAll(m: Machine, regs: seq<int>) { forall i :: 0 <= i < |regs| ==> 0 <= regs[i] < |m.core.regs| }

  function Read(m: Machine, regs: seq<int>): seq<u64>
    requires HasAll(m, regs)
  {
    seq(|regs|, i requires 0 <= i < |regs| => m.core.regs[regs[i]])
  }

  lemma AppliesHost(env: Env, m: Machine, op: HostOp, index: int, regs: seq<int>, dest: Dest)
    ensures Apply(env, m.core, Host(op, index, regs, dest)) ==
      if HasAll(m, regs) then AskHost(env, m.core, op, index, Read(m, regs), dest) else Fault
  {
    hide AskHost;
    if HasAll(m, regs) {
      assert forall r :: r in regs ==> HasReg(m.core, r);
      assert Values(m.core, regs) == Read(m, regs);
    } else {
      var i :| 0 <= i < |regs| && !(0 <= regs[i] < |m.core.regs|);
      assert regs[i] in regs && !HasReg(m.core, regs[i]);
    }
  }

  /** What a decoded host call leads to. */
  function HostTurn(env: Env, m: Machine, op: HostOp, index: int, regs: seq<int>, dest: Dest, width: nat): Outcome {
    if !HasAll(m, regs) then Faulted
    else match AskHost(env, m.core, op, index, Read(m, regs), dest)
         case Fault => Faulted
         case Left(v, log) => Returned(v, log)
         case Next(core, _) => Running(Machine((m.pc + width) % TWO32, core))
  }

  lemma TurnHost(env: Env, d: Image, code: Code, m: Machine, a: nat,
                 op: HostOp, index: int, regs: seq<int>, dest: Dest, width: nat)
    requires Here(d, code, m, a, 1) && Decode(Fetch(d, a)) == Decoded(Host(op, index, regs, dest), width)
    ensures Step(env, d, code, m) == HostTurn(env, m, op, index, regs, dest, width)
  {
    hide Fetch, Decode, AskHost, Apply, Step;
    TurnIs(env, d, code, m, a, Decoded(Host(op, index, regs, dest), width));
    AppliesHost(env, m, op, index, regs, dest);
    NoBranch(env, m, op, index, regs, dest);
  }

  lemma NoBranch(env: Env, m: Machine, op: HostOp, index: int, regs: seq<int>, dest: Dest)
    ensures var r := Apply(env, m.core, Host(op, index, regs, dest));
      r.Next? ==> !r.taken
  {
  }

  lemma NarrowIs(u: u64)
    ensures ToSlot(Sext(u, HALF32)) == Narrow(u)
  {
    SextMod(u, HALF32);
    SextIsSigned(u % TWO32, HALF32);
  }

  lemma OneReg(m: Machine, y: nat)
    ensures HasAll(m, [y]) <==> Has(m, y)
    ensures HasAll(m, [y]) ==> Read(m, [y]) == [m.core.regs[y]]
  {
    var regs: seq<int> := [y];
    assert regs[0] == y;
  }

  lemma TwoRegs(m: Machine, y: nat, z: nat)
    ensures HasAll(m, [y, z]) <==> Has(m, y) && Has(m, z)
    ensures HasAll(m, [y, z]) ==> Read(m, [y, z]) == [m.core.regs[y], m.core.regs[z]]
  {
    var regs: seq<int> := [y, z];
    assert regs[0] == y && regs[1] == z;
  }

  lemma ThreeRegs(m: Machine, y: nat, z: nat, x: nat)
    ensures HasAll(m, [y, z, x]) <==> Has(m, x) && Has(m, y) && Has(m, z)
    ensures HasAll(m, [y, z, x]) ==> Read(m, [y, z, x]) == [m.core.regs[y], m.core.regs[z], m.core.regs[x]]
  {
    var regs: seq<int> := [y, z, x];
    assert regs[0] == y && regs[1] == z && regs[2] == x;
  }

  lemma MakesObject(env: Env, d: Image, code: Code, m: Machine, a: nat)
    requires Here(d, code, m, a, 2) && d[a] in [0x1a, 0x22]
    ensures var op := if d[a] == 0x1a then ConstString else NewInstance;
      Step(env, d, code, m) == AsksFor(env, m, 2, d[a + 1], Call(op, Half(d, a + 2), []))
  {
    hide Fetch, DecodeHigh, Sext;
    Fetches(d, code, m, a, 2);
  }

  lemma MakesStringJumbo(env: Env, d: Image, code: Code, m: Machine, a: nat)
    requires Here(d, code, m, a, 3) && d[a] == 0x1b
    ensures Step(env, d, code, m) == AsksFor(env, m, 3, d[a + 1], Call(ConstString, Full(d, a + 2), []))
  {
    hide Fetch, DecodeHigh, Sext;
    Fetches(d, code, m, a, 3);
  }

  /** array-length vA, vB: the answer is cut to 32 bits. */
  lemma LengthOfArray(env: Env, d: Image, code: Code, m: Machine, a: nat)
    requires Here(d, code, m, a, 1) && d[a] == 0x21
    ensures var x, y := Low(d[a + 1]), High(d[a + 1]);
      Step(env, d, code, m) ==
        if !Has(m, y) then Faulted
        else
          var call := Call(ArrayLength, 0, [m.core.regs[y]]);
          Puts(Asked(m, call), 1, x, env.host(m.core.log, call) % TWO32)
  {
    hide Fetch, DecodeHigh, Sext, Step, Apply;
    Fetches(d, code, m, a, 1);
    var x, y := Low(d[a + 1]), High(d[a + 1]);
    TurnHost(env, d, code, m, a, ArrayLength, 0, [y], Reg(x), 1);
    OneReg(m, y);
  }

  /** new-array vA, vB, type: the length is narrowed. */
  lemma MakesArray(env: Env, d: Image, code: Code, m: Machine, a: nat)
    requires Here(d, code, m, a, 2) && d[a] == 0x23
    ensures var x, y := Low(d[a + 1]), High(d[a + 1]);
      Step(env, d, code, m) ==
        if !Has(m, y) then Faulted
        else AsksFor(env, m, 2, x, Call(NewArray, Half(d, a + 2), [Narrow(m.core.regs[y])]))
  {
    hide Fetch, DecodeHigh, Sext, ToSlot, Step, Apply;
    Fetches(d, code, m, a, 2);
    var x, y := Low(d[a + 1]), High(d[a + 1]);
    TurnHost(env, d, code, m, a, NewArray, Half(d, a + 2), [y], Reg(x), 2);
    OneReg(m, y);
    if Has(m, y) { NarrowIs(m.core.regs[y]); }
  }

  /** aget vAA, vBB, vCC: array, then index. */
  lemma ReadsArray(env: Env, d: Image, code: Code, m: Machine, a: nat)
    requires Here(d, code, m, a, 2) && 0x44 <= d[a] <= 0x4a
    ensures var x, y, z := d[a + 1], d[a + 2], d[a + 3];
      Step(env, d, code, m) ==
        if !Has(m, y) || !Has(m, z) then Faulted
        else AsksFor(env, m, 2, x, Call(ArrayGet, 0, [m.core.regs[y], Narrow(m.core.regs[z])]))
  {
    hide Fetch, DecodeLow, Sext, ToSlot, Step, Apply;
    Fetches(d, code, m, a, 2);
    var x, y, z := d[a + 1], d[a + 2], d[a + 3];
    assert Half(d, a + 2) % 256 == y && Half(d, a + 2) / 256 == z;
    TurnHost(env, d, code, m, a, ArrayGet, 0, [y, z], Reg(x), 2);
    TwoRegs(m, y, z);
    if Has(m, y) && Has(m, z) {
      NarrowIs(m.core.regs[z]);
      var vals := [m.core.regs[y], m.core.regs[z]];
      assert vals[1 := Narrow(m.core.regs[z])] == [m.core.regs[y], Narrow(m.core.regs[z])];
    }
  }

  /** aput vAA, vBB, vCC: array, index, value. */
  lemma WritesArray(env: Env, d: Image, code: Code, m: Machine, a: nat)
    requires Here(d, code, m, a, 2) && 0x4b <= d[a] <= 0x51
    ensures var x, y, z := d[a + 1], d[a + 2], d[a + 3];
      Step(env, d, code, m) ==
        if !Has(m, x) || !Has(m, y) || !Has(m, z) then Faulted
        else Running(Moved(Asked(m, Call(ArrayPut, 0, [m.core.regs[y], Narrow(m.core.regs[z]), m.core.regs[x]])), 2))
  {
    hide Fetch, DecodeLow, Sext, ToSlot, Step, Apply;
    Fetches(d, code, m, a, 2);
    var x, y, z := d[a + 1], d[a + 2], d[a + 3];
    assert Half(d, a + 2) % 256 == y && Half(d, a + 2) / 256 == z;
    TurnHost(env, d, code, m, a, ArrayPut, 0, [y, z, x], Nowhere, 2);
    ThreeRegs(m, y, z, x);
    if Has(m, x) && Has(m, y) && Has(m, z) {
      NarrowIs(m.core.regs[z]);
      var vals := [m.core.regs[y], m.core.regs[z], m.core.regs[x]];
      assert vals[1 := Narrow(m.core.regs[z])] == [m.core.regs[y], Narrow(m.core.regs[z]), m.core.regs[x]];
    }
  }

  /** iget vA, vB, field and iput vA, vB, field: vB is the object. */
  lemma InstanceField(env: Env, d: Image, code: Code, m: Machine, a: nat)
    requires Here(d, code, m, a, 2) && 0x52 <= d[a] <= 0x5f
    ensures var x, y, field := Low(d[a + 1]), High(d[a + 1]), Half(d, a + 2);
      Step(env, d, code, m) ==
        if !Has(m, y) then Faulted
        else if d[a] <= 0x58 then AsksFor(env, m, 2, x, Call(InstanceGet, field, [m.core.regs[y]]))
        else if !Has(m, x) then Faulted
        else Running(Moved(Asked(m, Call(InstancePut, field, [m.core.regs[y], m.core.regs[x]])), 2))
  {
    hide Fetch, DecodeLow, Sext, Step, Apply;
    Fetches(d, code, m, a, 2);
    var x, y, field := Low(d[a + 1]), High(d[a + 1]), Half(d, a + 2);
    if d[a] <= 0x58 {
      TurnHost(env, d, code, m, a, InstanceGet, field, [y], Reg(x), 2);
      OneReg(m, y);
    } else {
      TurnHost(env, d, code, m, a, InstancePut, field, [y, x], Nowhere, 2);
      TwoRegs(m, y, x);
    }
  }

  /** sget vAA, field and sput vAA, field. */
  lemma StaticField(env: Env, d: Image, code: Code, m: Machine, a: nat)
    requires Here(d, code, m, a, 2) && 0x60 <= d[a] <= 0x6d
    ensures var x, field := d[a + 1], Half(d, a + 2);
      Step(env, d, code, m) ==
        if d[a] <= 0x66 then AsksFor(env, m, 2, x, Call(StaticGet, field, []))
        else if !Has(m, x) then Faulted
        else Running(Moved(Asked(m, Call(StaticPut, field, [m.core.regs[x]])), 2))
  {
    hide Fetch, DecodeLow, Sext, Step, Apply;
    Fetches(d, code, m, a, 2);
    var x, field := d[a + 1], Half(d, a + 2);
    if d[a] <= 0x66 {
      TurnHost(env, d, code, m, a, StaticGet, field, [], Reg(x), 2);
      assert Read(m, []) == [];
    } else {
      TurnHost(env, d, code, m, a, StaticPut, field, [x], Nowhere, 2);
      OneReg(m, x);
    }
  }

  /** The argument registers of a plain invoke: four nibbles of the third unit, lowest
      first, then the low nibble of the second byte. */
  function ArgRegs(d: Image, a: nat): seq<nat>
    requires a + 6 <= |d|
  {
    [Low(d[a + 4]), High(d[a + 4]), Low(d[a + 5]), High(d[a + 5]), Low(d[a + 1])]
  }

  function AsksMethod(env: Env, m: Machine, call: Call): Outcome {
    var m' := Asked(m, call);
    Running(Moved(m'.(core := m'.core.(result := env.host(m.core.log, call))), 3))
  }

  lemma InvokeArgs(d: Image, code: Code, m: Machine, a: nat)
    requires Here(d, code, m, a, 3)
    ensures InvokeRegs(Fetch(d, a)) == ArgRegs(d, a)
  {
    hide Fetch;
    Fetches(d, code, m, a, 3);
    FourNibbles(d[a + 4], d[a + 5], Half(d, a + 4));
  }

  lemma FourNibbles(lo: byte, hi: byte, w: int)
    requires var high: int := hi; w == lo + 256 * high
    ensures w % 16 == lo % 16 && w / 16 % 16 == lo / 16 && w / 256 % 16 == hi % 16 && w / 4096 == hi / 16
  {
    var a, b, c: int, e: int := lo % 16, lo / 16, hi % 16, hi / 16;
    assert w == e * 4096 + c * 256 + b * 16 + a;
    assert w / 16 == e * 256 + c * 16 + b;
    assert w / 256 == e * 16 + c;
  }

  lemma BrokenFaults(env: Env, m: Machine)
    ensures After(env, m, Decoded(Broken, 3)) == Faulted
  {
  }

  /** invoke-kind {...}, method: kinds in opcode order; the answer is the pending result. */
  lemma Invokes(env: Env, d: Image, code: Code, m: Machine, a: nat)
    requires Here(d, code, m, a, 3) && 0x6e <= d[a] <= 0x72
    ensures var n := High(d[a + 1]);
      if n > 5 || exists i :: 0 <= i < n && !Has(m, ArgRegs(d, a)[i]) then Step(env, d, code, m) == Faulted
      else
        var args := seq(n, i requires 0 <= i < n => m.core.regs[ArgRegs(d, a)[i]]);
        Step(env, d, code, m) == AsksMethod(env, m, Call(Invoke(d[a] - 0x6e), Half(d, a + 2), args))
  {
    hide Fetch, DecodeLow, Sext, InvokeRegs, Step, Apply;
    Fetches(d, code, m, a, 3);
    InvokeArgs(d, code, m, a);
    var n := High(d[a + 1]);
    if n <= 5 {
      var regs: seq<int> := InvokeRegs(Fetch(d, a))[..n];
      TurnHost(env, d, code, m, a, Invoke(d[a] - 0x6e), Half(d, a + 2), regs, Result, 3);
      forall i | 0 <= i < n ensures regs[i] == ArgRegs(d, a)[i] {}
      if HasAll(m, regs) {
        assert Read(m, regs) == seq(n, i requires 0 <= i < n => m.core.regs[ArgRegs(d, a)[i]]);
      }
    } else {
      TurnIs(env, d, code, m, a, Decoded(Broken, 3));
      BrokenFaults(env, m);
    }
  }

  /** invoke-kind/range {vCCCC ..}, method: consecutive registers, as far as there are any. */
  lemma InvokesRange(env: Env, d: Image, code: Code, m: Machine, a: nat)
    requires Here(d, code, m, a, 3) && 0x74 <= d[a] <= 0x78
    ensures var first, count, size := Half(d, a + 4), d[a + 1], |m.core.regs|;
      var n: nat := if first >= size then 0 else if first + count <= size then count else size - first;
      var args := seq(n, i requires 0 <= i < n => m.core.regs[first + i]);
      Step(env, d, code, m) == AsksMethod(env, m, Call(Invoke(d[a] - 0x74), Half(d, a + 2), args))
  {
    hide Fetch, DecodeLow, Sext, Step, After;
    Fetches(d, code, m, a, 3);
    TurnIs(env, d, code, m, a, Decoded(HostRange(d[a] - 0x74, Half(d, a + 2), Half(d, a + 4), d[a + 1]), 3));
    RangeTurn(env, m, d[a] - 0x74, Half(d, a + 2), Half(d, a + 4), d[a + 1]);
  }

  lemma RangeTurn(env: Env, m: Machine, kind: nat, index: int, first: nat, count: nat)
    ensures var size := |m.core.regs|;
      var n: nat := if first >= size then 0 else if first + count <= size then count else size - first;
      var args := seq(n, i requires 0 <= i < n => m.core.regs[first + i]);
      After(env, m, Decoded(HostRange(kind, index, first, count), 3)) ==
        AsksMethod(env, m, Call(Invoke(kind), index, args))
  {
    var size := |m.core.regs|;
    var n: nat := if first >= size then 0 else if first + count <= size then count else size - first;
    var lo := if first <= size then first else size;
    assert m.core.regs[lo..lo + n] == seq(n, i requires 0 <= i < n => m.core.regs[first + i]);
  }

  // ----- arithmetic -----

  lemma UnaryOps(env: Env, d: Image, code: Code, m: Machine, a: nat)
    requires Here(d, code, m, a, 1) && 0x7b <= d[a] <= 0x8f
    ensures var x, y := Low(d[a + 1]), High(d[a + 1]);
      Step(env, d, code, m) == if Has(m, y) then Puts(m, 1, x, env.unary(d[a], m.core.regs[y])) else Faulted
  {
    hide Fetch, DecodeLow, Sext, Step;
    Fetches(d, code, m, a, 1);
    TurnIs(env, d, code, m, a, Decode(Fetch(d, a)));
  }

  /** binop vAA, vBB, vCC and binop/2addr vA, vB: the operation is the opcode's place in
      its group of eleven; the first source is the left operand. */
  lemma BinaryOps(env: Env, d: Image, code: Code, m: Machine, a: nat)
    requires Here(d, code, m, a, 2) && 0x90 <= d[a] <= 0xaf
    ensures var x, y, z := d[a + 1], d[a + 2], d[a + 3];
      Step(env, d, code, m) ==
        if Has(m, y) && Has(m, z)
        then Puts(m, 2, x, env.binary((d[a] - 0x90) % 11, m.core.regs[y], m.core.regs[z]))
        else Faulted
  {
    hide Fetch, DecodeLow, Sext, Step;
    Fetches(d, code, m, a, 2);
    TurnIs(env, d, code, m, a, Decode(Fetch(d, a)));
    assert Half(d, a + 2) % 256 == d[a + 2] && Half(d, a + 2) / 256 == d[a + 3];
    FamilyIs(d[a] - 0x90);
  }

  lemma FamilyIs(n: nat)
    requires n < 32
    ensures Family(n) == n % 11
  {
  }

  lemma BinaryInPlace(env: Env, d: Image, code: Code, m: Machine, a: nat)
    requires Here(d, code, m, a, 1) && 0xb0 <= d[a] <= 0xcf
    ensures var x, y := Low(d[a + 1]), High(d[a + 1]);
      Step(env, d, code, m) ==
        if Has(m, x) && Has(m, y)
        then Puts(m, 1, x, env.binary((d[a] - 0xb0) % 11, m.core.regs[x], m.core.regs[y]))
        else Faulted
  {
    hide Fetch, DecodeLow, Sext, Step;
    Fetches(d, code, m, a, 1);
    TurnIs(env, d, code, m, a, Decode(Fetch(d, a)));
    FamilyIs(d[a] - 0xb0);
  }

  /** With the interpreter's own arithmetic: the register gets the sum, difference, product,
      quotient, remainder, bitwise combination or shift that the opcode names. */
  lemma BinaryOnBytes(host: (seq<Call>, Call) -> u64, d: Image, code: Code, m: Machine, a: nat) returns (v: u64)
    requires Here(d, code, m, a, 2) && 0x90 <= d[a] <= 0xaf && Has(m, d[a + 2]) && Has(m, d[a + 3])
    ensures A.IsResult((d[a] - 0x90) % 11, m.core.regs[d[a + 2]], m.core.regs[d[a + 3]], v)
    ensures Step(A.Arith(host), d, code, m) == Puts(m, 2, d[a + 1], v)
  {
    hide Step, A.IsResult, A.Binary;
    var k, x, y := (d[a] - 0x90) % 11, m.core.regs[d[a + 2]], m.core.regs[d[a + 3]];
    BinaryOps(A.Arith(host), d, code, m, a);
    A.BinaryMeans(k, x, y);
    v := A.Binary(k, x, y);
  }

  /** With a literal: the register is narrowed, and the second operation is reversed
      subtraction. */
  function WithLiteral(env: Env, m: Machine, op: int, dst: nat, src: nat, lit: int): Outcome {
    if !Has(m, src) then Faulted
    else
      var x := Signed(m.core.regs[src] % TWO32, TWO32);
      Puts(m, 2, dst, if op == 1 then (lit - x) % TWO64 else env.binary(op, x % TWO64, lit % TWO64))
  }

  lemma NarrowedRegister(u: u64)
    ensures Sext(u, HALF32) == Signed(u % TWO32, TWO32)
  {
    SextMod(u, HALF32);
    SextIsSigned(u % TWO32, HALF32);
  }

  lemma Literal16(env: Env, d: Image, code: Code, m: Machine, a: nat)
    requires Here(d, code, m, a, 2) && 0xd0 <= d[a] <= 0xd7
    ensures Step(env, d, code, m) ==
      WithLiteral(env, m, d[a] - 0xd0, Low(d[a + 1]), High(d[a + 1]), Signed(Half(d, a + 2), 0x1_0000))
  {
    hide Fetch, DecodeLow, Sext, Step;
    Fetches(d, code, m, a, 2);
    TurnIs(env, d, code, m, a, Decode(Fetch(d, a)));
    SextIsSigned(Half(d, a + 2), HALF16);
    if Has(m, High(d[a + 1])) { NarrowedRegister(m.core.regs[High(d[a + 1])]); }
  }

  lemma Literal8(env: Env, d: Image, code: Code, m: Machine, a: nat)
    requires Here(d, code, m, a, 2) && 0xd8 <= d[a] <= 0xe2
    ensures Step(env, d, code, m) == WithLiteral(env, m, d[a] - 0xd8, d[a + 1], d[a + 2], Signed(d[a + 3], 0x100))
  {
    hide Fetch, DecodeLow, Sext, Step;
    Fetches(d, code, m, a, 2);
    TurnIs(env, d, code, m, a, Decode(Fetch(d, a)));
    assert Half(d, a + 2) % 256 == d[a + 2] && Half(d, a + 2) / 256 == d[a + 3];
    SextIsSigned(d[a + 3], HALF8);
    if Has(m, d[a + 2]) { NarrowedRegister(m.core.regs[d[a + 2]]); }
  }

  // ----- entering a method -----

  /** Argument i arrives in register registers - ins + i; all other registers are zero, the
      program counter too, and no result is pending. */
  lemma ArgumentsArrive(code: Code, args: seq<u64>, log: seq<Call>)
    requires code.ins <= code.registers
    ensures var start := Enter(code, args, log);
      && start.Some? && start.value.pc == 0 && start.value.core.result == 0 && start.value.core.log == log
      && var regs := start.value.core.regs;
      && |regs| == (if code.registers == 0 then 1 else code.registers)
      && forall r :: 0 <= r < |regs| ==>
           var i := r - (code.registers - code.ins);
           regs[r] == if 0 <= i < |args| && i < code.ins then args[i] else 0
  {
  }

  /** A call runs for 200000 turns at most; a method that is still running then answers its
      pending result, with whatever it asked the host for. */
  lemma CallCutOff(env: Env, d: Image, code: Code, args: seq<u64>, log: seq<Call>)
    requires Runnable(d, code) && code.valid && code.ins <= code.registers
    ensures Enter(code, args, log).Some?
    ensures var o := Steps(env, d, code, Enter(code, args, log).value, 200000);
      CallMethod(env, d, code, args, log) ==
        if o.Running? then Returned(o.m.core.result, o.m.core.log) else o
  {
    hide Steps;
    ArgumentsArrive(code, args, log);
  }
}

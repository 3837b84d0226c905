// The Dalvik interpreter: fetch, decode and run the code units of one method.

module DalvikVm {
  import opened Common
  import opened DexModel
  import opened DalvikIsa
  import LE = LittleEndian

  /** The bytes an instruction can consist of. */
  datatype Fields = Fields(op: byte, b1: byte, w1: u16, w2: u16, dw: u32, qw: u64)

  function Fetch(d: Image, addr: nat): (f: Fields)
    requires addr < |d|
  {
    Fields(d[addr], if addr + 1 < |d| then d[addr + 1] else 0, Word16(d, addr + 2), Word16(d, addr + 4),
           Word32(d, addr + 2), if addr + 10 <= |d| then LE.Word64(d, addr + 2) else 0)
  }

  datatype Decoded = Decoded(effect: Effect, width: nat)

  /** The five argument registers of a plain invoke. */
  function InvokeRegs(f: Fields): (r: seq<int>)
    ensures |r| == 5
  {
    [f.w2 % 16, f.w2 / 16 % 16, f.w2 / 256 % 16, f.w2 / 4096, f.b1 % 16]
  }

  /** Opcodes below 0x44: moves, constants, returns, branches. */
  function DecodeLow(f: Fields): Decoded {
    var lo, hi := f.b1 % 16, f.b1 / 16;
    if f.op == 0x00 then Decoded(Skip, 1)
    else if f.op == 0x01 || f.op == 0x04 || f.op == 0x07 then Decoded(Move(lo, hi), 1)
    else if f.op == 0x02 || f.op == 0x05 || f.op == 0x08 then Decoded(Move(f.b1, f.w1), 2)
    else if f.op == 0x03 || f.op == 0x06 || f.op == 0x09 then Decoded(Move(f.w1, f.w2), 3)
    else if 0x0a <= f.op <= 0x0c then Decoded(TakeResult(f.b1), 1)
    else if f.op == 0x0e then Decoded(LeaveZero, 1)
    else if 0x0f <= f.op <= 0x11 then Decoded(LeaveReg(f.b1), 1)
    else if f.op == 0x12 then Decoded(Set(lo, ToSlot(Sext(hi, HALF4))), 1)
    else if f.op == 0x13 || f.op == 0x16 then Decoded(Set(f.b1, ToSlot(Sext(f.w1, HALF16))), 2)
    else if f.op == 0x14 || f.op == 0x17 then Decoded(Set(f.b1, ToSlot(Sext(f.dw, HALF32))), 3)
    else if f.op == 0x15 then Decoded(Set(f.b1, ToSlot(Sext(f.w1, HALF16) * 0x1_0000)), 2)
    else if f.op == 0x18 then Decoded(Set(f.b1, f.qw), 5)
    else if f.op == 0x19 then Decoded(Set(f.b1, ToSlot(Sext(f.w1, HALF16) * 0x1_0000_0000_0000)), 2)
    else if f.op == 0x1a then Decoded(Host(ConstString, f.w1, [], Reg(f.b1)), 2)
    else if f.op == 0x1b then Decoded(Host(ConstString, f.dw, [], Reg(f.b1)), 3)
    else if f.op == 0x1c then Decoded(Set(f.b1, 0), 2)
    else if f.op == 0x1d || f.op == 0x1e then Decoded(Skip, 1)
    else if f.op == 0x1f then Decoded(Skip, 2)
    else if f.op == 0x20 then Decoded(Set(lo, 1), 2)
    else if f.op == 0x21 then Decoded(Host(ArrayLength, 0, [hi], Reg(lo)), 1)
    else if f.op == 0x22 then Decoded(Host(NewInstance, f.w1, [], Reg(f.b1)), 2)
    else if f.op == 0x23 then Decoded(Host(NewArray, f.w1, [hi], Reg(lo)), 2)
    else if f.op == 0x24 || f.op == 0x25 || f.op == 0x26 then Decoded(Skip, 3)
    else if f.op == 0x27 then Decoded(LeaveResult, 1)
    else if f.op == 0x28 then Decoded(Goto(Sext(f.b1, HALF8), true), 1)
    else if f.op == 0x29 then Decoded(Goto(Sext(f.w1, HALF16), false), 2)
    else if f.op == 0x2a then Decoded(Goto(Sext(f.dw, HALF32), false), 3)
    else if f.op == 0x2b || f.op == 0x2c then Decoded(Skip, 3)
    else if 0x2d <= f.op <= 0x31 then Decoded(Set(f.b1, 0), 2)
    else if 0x32 <= f.op <= 0x37 then Decoded(If(f.op - 0x32, lo, Some(hi), Sext(f.w1, HALF16)), 2)
    else if 0x38 <= f.op <= 0x3d then Decoded(If(f.op - 0x38, f.b1, None, Sext(f.w1, HALF16)), 2)
    else Decoded(LeaveResult, 1)
  }

  /** Opcodes from 0x44: arrays, fields, calls, arithmetic. */
  function DecodeHigh(f: Fields): Decoded {
    var lo, hi := f.b1 % 16, f.b1 / 16;
    if 0x44 <= f.op <= 0x4a then Decoded(Host(ArrayGet, 0, [f.w1 % 256, f.w1 / 256], Reg(f.b1)), 2)
    else if 0x4b <= f.op <= 0x51 then Decoded(Host(ArrayPut, 0, [f.w1 % 256, f.w1 / 256, f.b1], Nowhere), 2)
    else if 0x52 <= f.op <= 0x58 then Decoded(Host(InstanceGet, f.w1, [hi], Reg(lo)), 2)
    else if 0x59 <= f.op <= 0x5f then Decoded(Host(InstancePut, f.w1, [hi, lo], Nowhere), 2)
    else if 0x60 <= f.op <= 0x66 then Decoded(Host(StaticGet, f.w1, [], Reg(f.b1)), 2)
    else if 0x67 <= f.op <= 0x6d then Decoded(Host(StaticPut, f.w1, [f.b1], Nowhere), 2)
    else if 0x6e <= f.op <= 0x72 then
      if hi <= 5 then Decoded(Host(Invoke(f.op - 0x6e), f.w1, InvokeRegs(f)[..hi], Result), 3) else Decoded(Broken, 3)
    else if 0x74 <= f.op <= 0x78 then Decoded(HostRange(f.op - 0x74, f.w1, f.w2, f.b1), 3)
    else if 0x7b <= f.op <= 0x8f then Decoded(Unary(f.op, lo, hi), 1)
    else if 0x90 <= f.op <= 0xaf then Decoded(Binary(Family(f.op - 0x90), f.b1, f.w1 % 256, f.w1 / 256), 2)
    else if 0xb0 <= f.op <= 0xcf then Decoded(Binary(Family(f.op - 0xb0), lo, lo, hi), 1)
    else if 0xd0 <= f.op <= 0xd7 then Decoded(Literal(f.op - 0xd0, lo, hi, Sext(f.w1, HALF16)), 2)
    else if 0xd8 <= f.op <= 0xe2 then Decoded(Literal(f.op - 0xd8, f.b1, f.w1 % 256, Sext(f.w1 / 256, HALF8)), 2)
    else Decoded(LeaveResult, 1)
  }

  function Decode(f: Fields): Decoded {
    if f.op < 0x44 then DecodeLow(f) else DecodeHigh(f)
  }

  // ----- code items -----

  datatype Code = Code(registers: u16, ins: u16, outs: u16, insnsOff: u32, insnsSize: u32, valid: bool)

  const NO_CODE := Code(0, 0, 0, 0, 0, false)

  /** The reader's view of a code item. */
  function CodeAt(d: Image, off: u32): (c: Code)
    ensures Runnable(d, c)
  {
    if off == 0 || off + 16 > |d| || off + 16 >= TWO32 then NO_CODE
    else
      var size := Word32(d, off + 12);
      Code(Word16(d, off), Word16(d, off + 2), Word16(d, off + 4), off + 16, size, off + 16 + size * 2 <= |d|)
  }

  predicate Runnable(d: Image, c: Code) {
    c.valid ==> c.insnsOff + c.insnsSize * 2 <= |d|
  }

  // ----- running -----

  datatype Machine = Machine(pc: u32, core: Core)

  datatype Outcome = Running(m: Machine) | Returned(value: u64, log: seq<Call>) | Faulted

  /** One turn of the loop. */
  function Step(env: Env, d: Image, code: Code, m: Machine): Outcome
    requires code.valid && Runnable(d, code)
  {
    if m.pc >= code.insnsSize then Returned(m.core.result, m.core.log)
    else
      After(env, m, Decode(Fetch(d, (code.insnsOff + m.pc * 2) % TWO32)))
  }

  /** The machine after a decoded instruction. */
  function After(env: Env, m: Machine, x: Decoded): Outcome {
    match Apply(env, m.core, x.effect)
    case Fault => Faulted
    case Left(v, log) => Returned(v, log)
    case Next(core, taken) =>
      if taken && x.effect.Goto? && x.effect.short && x.effect.to == 0 then Returned(core.result, core.log)
      else Running(Machine((m.pc + Advance(x, taken)) % TWO32, core))
  }

  /** How far the program counter moves. */
  function Advance(x: Decoded, taken: bool): int {
    if !taken then x.width
    else match x.effect
      case Goto(to, _) => if to == 0 then x.width else to
      case If(_, _, _, to) => if to == 0 then x.width else to
      case _ => x.width
  }

  /** n turns, or fewer if the method ends. */
  function Steps(env: Env, d: Image, code: Code, m: Machine, n: nat): Outcome
    requires code.valid && Runnable(d, code)
    decreases n
  {
    if n == 0 then Running(m)
    else
      match Step(env, d, code, m)
      case Running(m') => Steps(env, d, code, m', n - 1)
      case o => o
  }

  function MaxSteps(): nat { 200000 }

  function FrameLength(code: Code): nat { if code.registers == 0 then 1 else code.registers }

  function Passed(code: Code, args: seq<u64>): nat { if |args| < code.ins then |args| else code.ins }

  /** Arguments go to the last ins registers; no machine if those do not exist. */
  function Enter(code: Code, args: seq<u64>, log: seq<Call>): Option<Machine> {
    var n, first := Passed(code, args), code.registers - code.ins;
    var zero := seq(FrameLength(code), i => 0);
    if n == 0 then Some(Machine(0, Core(zero, 0, log)))
    else if first < 0 then None
    else Some(Machine(0, Core(zero[..first] + args[..n] + zero[first + n..], 0, log)))
  }

  /** The answer of a whole call; a run that is still going is cut off. */
  function CallMethod(env: Env, d: Image, code: Code, args: seq<u64>, log: seq<Call>): Outcome
    requires Runnable(d, code)
  {
    if !code.valid then Returned(0, log)
    else
      match Enter(code, args, log)
      case None => Faulted
      case Some(m) =>
        match Steps(env, d, code, m, MaxSteps())
        case Running(m') => Returned(m'.core.result, m'.core.log)
        case o => o
  }

  // ----- the interpreter object -----

  lemma {:induction false} StepsSnoc(env: Env, d: Image, code: Code, m: Machine, n: nat)
    requires code.valid && Runnable(d, code)
    ensures Steps(env, d, code, m, n + 1) ==
      match Steps(env, d, code, m, n) { case Running(m') => Step(env, d, code, m') case o => o }
    decreases n
  {
    hide Step;
    if n > 0 {
      match Step(env, d, code, m)
      case Running(m') => StepsSnoc(env, d, code, m', n - 1);
      case _ =>
    } else {
      assert Steps(env, d, code, m, 1) ==
        match Step(env, d, code, m) { case Running(m') => Steps(env, d, code, m', 0) case o => o };
    }
  }

  class Dalvik {
    const dex: Image
    const maxDepth: nat := 64
    var depth: nat

    constructor (d: Image)
      ensures dex == d && depth == 0
    {
      dex := d;
      depth := 0;
    }

    /** Runs one method. Every way out restores the depth. */
    method Run(env: Env, code: Code, args: seq<u64>, log: seq<Call>) returns (o: Outcome)
      requires Runnable(dex, code)
      modifies this
      ensures depth == old(depth)
      ensures o == if depth >= maxDepth then Returned(0, log) else CallMethod(env, dex, code, args, log)
      ensures !o.Running?
    {
      hide Step, Fetch, Decode, Apply;
      if !code.valid || depth >= maxDepth {
        return Returned(0, log);
      }
      depth := depth + 1;
      var start := Enter(code, args, log);
      if start == None {
        depth := depth - 1;
        return Faulted;
      }
      var m := start.value;
      for steps := 0 to MaxSteps()
        invariant depth == old(depth) + 1
        invariant Steps(env, dex, code, start.value, steps) == Running(m)
      {
        o := Step(env, dex, code, m);
        StepsSnoc(env, dex, code, start.value, steps);
        if !o.Running? {
          Settled(env, dex, code, start.value, steps + 1, MaxSteps());
          depth := depth - 1;
          return;
        }
        m := o.m;
      }
      depth := depth - 1;
      o := Returned(m.core.result, m.core.log);
    }
  }

  /** A finished run stays finished. */
  lemma {:induction false} Settled(env: Env, d: Image, code: Code, m: Machine, n: nat, k: nat)
    requires code.valid && Runnable(d, code) && n <= k && !Steps(env, d, code, m, n).Running?
    ensures Steps(env, d, code, m, k) == Steps(env, d, code, m, n)
    decreases k - n
  {
    hide Step;
    if n < k {
      StepsSnoc(env, d, code, m, n);
      Settled(env, d, code, m, n + 1, k);
    }
  }
}

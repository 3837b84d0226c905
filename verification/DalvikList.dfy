// Instruction lists run directly: the program counter is an index, branches go to the
// instruction they name. This is what assembled code is measured against.

module DalvikList {
  import opened Common
  import opened DalvikIsa
  import opened DalvikAsm

  /** What an instruction means, operand by operand. */
  function Meaning(ins: Instr): Effect {
    var op := ins.op;
    var a, b, c := Operand(ins, 0), Operand(ins, 1), Operand(ins, 2);
    match Fmt(ins)
    case F10x => if op == 0x00 then Skip else LeaveZero
    case F11x =>
      if op <= 0x0c then TakeResult(a)
      else if op == 0x0d || op == 0x27 then LeaveResult
      else if op <= 0x11 then LeaveReg(a)
      else Skip
    case F12x =>
      if op <= 0x07 then Move(a, b)
      else if op == 0x21 then Host(ArrayLength, 0, [b], Reg(a))
      else if op <= 0x8f then Unary(op, a, b)
      else Binary(Family(op - 0xb0), a, a, b)
    case F22x => Move(a, b)
    case F11n | F21s | F31i => Set(a, ToSlot(b))
    case F21h => Set(a, ToSlot(if op == 0x15 then b * 0x1_0000 else b * 0x1_0000_0000_0000))
    case F21c =>
      if op == 0x1a then Host(ConstString, b, [], Reg(a))
      else if op == 0x1c then Set(a, 0)
      else if op == 0x1f then Skip
      else if op == 0x22 then Host(NewInstance, b, [], Reg(a))
      else if op <= 0x66 then Host(StaticGet, b, [], Reg(a))
      else Host(StaticPut, b, [a], Nowhere)
    case F22c =>
      if op == 0x20 then Set(a, 1)
      else if op == 0x23 then Host(NewArray, c, [b], Reg(a))
      else if op <= 0x58 then Host(InstanceGet, c, [b], Reg(a))
      else Host(InstancePut, c, [b, a], Nowhere)
    case F23x =>
      if op <= 0x31 then Set(a, 0)
      else if op <= 0x4a then Host(ArrayGet, 0, [b, c], Reg(a))
      else if op <= 0x51 then Host(ArrayPut, 0, [b, c, a], Nowhere)
      else Binary(Family(op - 0x90), a, b, c)
    case F22b => Literal(op - 0xd8, a, b, c)
    case F22s => Literal(op - 0xd0, a, b, c)
    case F22t => If(op - 0x32, a, Some(b), c)
    case F21t => If(op - 0x38, a, None, b)
    case F10t => Goto(a, true)
    case F20t | F30t => Goto(a, false)
    case F35c => Host(Invoke(op - 0x6e), b, ins.regs, Result)
    case F3rc => HostRange(op - 0x74, c, a, b)
    case Unknown => Skip
  }

  predicate IsBranch(ins: Instr) { TargetSlot(Fmt(ins)).Some? }

  function Target(ins: Instr): int
    requires IsBranch(ins)
  {
    Operand(ins, TargetSlot(Fmt(ins)).value)
  }

  // ----- the list machine -----

  datatype Place = Place(at: nat, core: Core)

  datatype Ends = Goes(p: Place) | Returns(value: u64, log: seq<Call>) | Fails

  /** One instruction. A branch to itself is never followed: the short goto gives up,
      the others go on with the next instruction. */
  function StepList(env: Env, p: Program, s: Place): Ends {
    if s.at >= |p| then Returns(s.core.result, s.core.log)
    else
      var ins := p[s.at];
      match Apply(env, s.core, Meaning(ins))
      case Fault => Fails
      case Left(v, log) => Returns(v, log)
      case Next(core, taken) =>
        if !taken || !IsBranch(ins) then Goes(Place(s.at + 1, core))
        else if Target(ins) == s.at then
          if Fmt(ins) == F10t then Returns(core.result, core.log) else Goes(Place(s.at + 1, core))
        else if Target(ins) < 0 then Fails
        else Goes(Place(Target(ins), core))
  }

  function StepsList(env: Env, p: Program, s: Place, n: nat): Ends
    decreases n
  {
    if n == 0 then Goes(s)
    else
      match StepList(env, p, s)
      case Goes(s') => StepsList(env, p, s', n - 1)
      case e => e
  }

  // ----- when an instruction can be encoded -----

  predicate IsByte(v: int) { 0 <= v < 256 }
  predicate IsNibble(v: int) { 0 <= v < 16 }
  predicate IsHalf(v: int) { 0 <= v < 65536 }

  /** Every operand but the branch target fits its field. */
  predicate OperandsFit(ins: Instr) {
    var a, b, c := Operand(ins, 0), Operand(ins, 1), Operand(ins, 2);
    match Fmt(ins)
    case F10x | F10t | F20t | F30t | Unknown => true
    case F11x | F21t => IsByte(a)
    case F12x | F22t => IsNibble(a) && IsNibble(b)
    case F11n => IsNibble(a) && InSigned(b, HALF4)
    case F22x | F21c => IsByte(a) && IsHalf(b)
    case F21s | F21h => IsByte(a) && InSigned(b, HALF16)
    case F31i => IsByte(a) && InSigned(b, HALF32)
    case F23x => IsByte(a) && IsByte(b) && IsByte(c)
    case F22b => IsByte(a) && IsByte(b) && InSigned(c, HALF8)
    case F22s => IsNibble(a) && IsNibble(b) && InSigned(c, HALF16)
    case F22c => IsNibble(a) && IsNibble(b) && IsHalf(c)
    case F35c => |ins.regs| <= 5 && (forall r :: r in ins.regs ==> IsNibble(r)) && IsHalf(b)
    case F3rc => IsHalf(a) && IsByte(b) && IsHalf(c)
  }

  /** Half the range of distances a branch format holds. */
  function Reach(f: Format): (half: int)
    ensures half > 0
  {
    if f == F10t then HALF8 else if f == F30t then HALF32 else HALF16
  }

  /** The target is an instruction of the program, near enough for the format. */
  predicate BranchFits(p: Program, i: nat)
    requires i < |p| && IsBranch(p[i])
  {
    0 <= Target(p[i]) < |p| && InSigned(Offset(p, Target(p[i])) - Offset(p, i), Reach(Fmt(p[i])))
  }

  ghost predicate Encodable(p: Program) {
    forall i :: 0 <= i < |p| ==> OperandsFit(p[i]) && (IsBranch(p[i]) ==> BranchFits(p, i))
  }
}

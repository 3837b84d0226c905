// What a Dalvik instruction does to registers, the pending result and the host. The
// interpreter and the instruction-list machine both carry out these effects; how each
// of them finds the operands is their own affair.

module DalvikIsa {
  import opened Common

  // ----- two's complement -----

  /** The value of the low bits of v, read as a signed number; half is 2^(bits-1). */
  function Sext(v: int, half: int): (r: int)
    requires half > 0
    ensures -half <= r < half
  {
    if v % (2 * half) < half then v % (2 * half) else v % (2 * half) - 2 * half
  }

  const HALF4: int := 0x8
  const HALF8: int := 0x80
  const HALF16: int := 0x8000
  const HALF32: int := 0x8000_0000
  const HALF64: int := 0x8000_0000_0000_0000

  function ToSlot(v: int): u64 { v % TWO64 }

  predicate InSigned(v: int, half: int) { -half <= v < half }

  lemma ModUnique(v: int, m: int, q: int, r: int)
    requires v == q * m + r && 0 <= r < m
    ensures v % m == r
  {
    var d := v / m - q;
    assert d * m == r - v % m;
    Multiple(d, m);
  }

  lemma Multiple(d: int, m: int)
    requires m > 0
    ensures d >= 1 ==> d * m >= m
    ensures d <= -1 ==> d * m <= -m
  {
  }

  /** Truncating to a signed width and extending again changes nothing that fits,
      and everything that does not. */
  lemma SextIff(v: int, half: int)
    requires half > 0
    ensures Sext(v, half) == v <==> InSigned(v, half)
  {
    if InSigned(v, half) {
      ModUnique(v, 2 * half, if v < 0 then -1 else 0, if v < 0 then v + 2 * half else v);
    }
  }

  lemma SextMod(v: int, half: int)
    requires half > 0
    ensures Sext(v % (2 * half), half) == Sext(v, half)
  {
    var m := 2 * half;
    ModUnique(v % m, m, 0, v % m);
  }

  // ----- effects -----

  /** Opcodes repeat eleven integer operations for int and long, then five for float
      and double. */
  function Family(n: int): int {
    if n < 11 then n else if n < 22 then n - 11 else n - 22
  }

  datatype HostOp = ConstString | NewInstance | NewArray | ArrayLength | ArrayGet | ArrayPut
                  | InstanceGet | InstancePut | StaticGet | StaticPut | Invoke(kind: nat)

  /** A call out of the interpreter: what, the index in the instruction, the values. */
  datatype Call = Call(op: HostOp, index: int, args: seq<u64>)

  datatype Dest = Reg(r: int) | Result | Nowhere

  datatype Effect =
    | Skip
    | Move(dst: int, src: int)
    | TakeResult(dst: int)
    | Set(dst: int, value: u64)
    | Unary(code: int, dst: int, src: int)
    | Binary(family: int, dst: int, a: int, b: int)
    | Literal(family: int, dst: int, a: int, lit: int)
    | Host(op: HostOp, index: int, regs: seq<int>, dest: Dest)
    | HostRange(kind: nat, index: int, first: int, count: int)
    | LeaveZero
    | LeaveReg(src: int)
    | LeaveResult
    // A goto with offset 0 gives up where the longer forms fall through.
    | Goto(to: int, short: bool)
    | If(test: int, a: int, other: Option<int>, to: int)
    | Broken

  /** What the interpreter leaves to others: arithmetic and the host. The host may
      answer by everything it has been asked before. */
  datatype Env = Env(unary: (int, u64) -> u64, binary: (int, u64, u64) -> u64, host: (seq<Call>, Call) -> u64)

  datatype Core = Core(regs: seq<u64>, result: u64, log: seq<Call>)

  datatype Did = Next(core: Core, taken: bool) | Left(value: u64, log: seq<Call>) | Fault

  predicate HasReg(c: Core, r: int) { 0 <= r < |c.regs| }

  function Get(c: Core, r: int): u64
    requires HasReg(c, r)
  {
    c.regs[r]
  }

  function Write(c: Core, r: int, v: u64): Did {
    if HasReg(c, r) then Next(c.(regs := c.regs[r := v]), false) else Fault
  }

  predicate Holds(test: int, a: int, b: int) {
    match test
    case 0 => a == b
    case 1 => a != b
    case 2 => a < b
    case 3 => a >= b
    case 4 => a > b
    case _ => a <= b
  }

  /** Array indices and lengths are narrowed to 32 bits on the way to the host. */
  function Narrowed(op: HostOp, args: seq<u64>): (r: seq<u64>)
    ensures |r| == |args|
  {
    if op.NewArray? && |args| == 1 then [ToSlot(Sext(args[0], HALF32))]
    else if (op.ArrayGet? || op.ArrayPut?) && |args| >= 2 then args[1 := ToSlot(Sext(args[1], HALF32))]
    else args
  }

  function AskHost(env: Env, c: Core, op: HostOp, index: int, args: seq<u64>, dest: Dest): Did {
    var call := Call(op, index, Narrowed(op, args));
    var answer := env.host(c.log, call);
    var c' := c.(log := c.log + [call]);
    match dest
    case Reg(r) => Write(c', r, if op.ArrayLength? then answer % TWO32 else answer)
    case Result => Next(c'.(result := answer), false)
    case Nowhere => Next(c', false)
  }

  function Values(c: Core, regs: seq<int>): seq<u64>
    requires forall r :: r in regs ==> HasReg(c, r)
  {
    seq(|regs|, i requires 0 <= i < |regs| => assert regs[i] in regs; Get(c, regs[i]))
  }

  function Apply(env: Env, c: Core, e: Effect): (r: Did) {
    match e
    case Skip => Next(c, false)
    case Move(dst, src) => if HasReg(c, src) then Write(c, dst, Get(c, src)) else Fault
    case TakeResult(dst) => Write(c, dst, c.result)
    case Set(dst, v) => Write(c, dst, v)
    case Unary(op, dst, src) => if HasReg(c, src) then Write(c, dst, env.unary(op, Get(c, src))) else Fault
    case Binary(k, dst, a, b) =>
      if HasReg(c, a) && HasReg(c, b) then Write(c, dst, env.binary(k, Get(c, a), Get(c, b))) else Fault
    case Literal(k, dst, a, lit) =>
      if !HasReg(c, a) then Fault
      else
        var x := Sext(Get(c, a), HALF32);
        Write(c, dst, if k == 1 then ToSlot(lit - x) else env.binary(k, ToSlot(x), ToSlot(lit)))
    case Host(op, index, regs, dest) =>
      if forall r :: r in regs ==> HasReg(c, r) then AskHost(env, c, op, index, Values(c, regs), dest) else Fault
    case HostRange(kind, index, first, count) =>
      if first < 0 || count < 0 then Fault
      else
        var lo := if first <= |c.regs| then first else |c.regs|;
        var hi := if first + count <= |c.regs| then first + count else |c.regs|;
        AskHost(env, c, Invoke(kind), index, c.regs[lo..hi], Result)
    case LeaveZero => Left(0, c.log)
    case LeaveReg(src) => if HasReg(c, src) then Left(Get(c, src), c.log) else Fault
    case LeaveResult => Left(c.result, c.log)
    case Goto(_, _) => Next(c, true)
    case If(test, a, b, _) =>
      if !HasReg(c, a) || (b.Some? && !HasReg(c, b.value)) then Fault
      else Next(c, Holds(test, Sext(Get(c, a), HALF64), if b.Some? then Sext(Get(c, b.value), HALF64) else 0))
    case Broken => Fault
  }

  lemma FrameSize(env: Env, c: Core, e: Effect)
    requires Apply(env, c, e).Next?
    ensures |Apply(env, c, e).core.regs| == |c.regs|
  {
  }
}

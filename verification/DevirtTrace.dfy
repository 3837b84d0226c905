// What a recorded trace means by itself: one record, one action on registers, result and
// host. The recovered bodies do exactly that.

module DevirtTrace {
  import opened Common
  import opened DalvikIsa
  import opened DalvikAsm
  import opened DalvikList
  import opened DevirtSafety
  import M = DevirtModel

  type Rows = seq<M.Record>
  type Families = M.Families

  // ----- names -----

  /** The text occurs somewhere in the name. */
  ghost predicate Mentions(s: string, sub: string) {
    exists i :: OccursAt(s, sub, i)
  }

  predicate OccursAt(s: string, sub: string, i: int) {
    0 <= i <= |s| - |sub| && s[i..i + |sub|] == sub
  }

  /** The name itself, or the name with a qualifier after a slash. */
  predicate Is(s: string, name: string) {
    s == name || name + "/" <= s
  }

  /** Arithmetic families and the operation they record. */
  const OPERATIONS: seq<(string, int)> := [
    ("add", 0), ("sub", 1), ("mul", 2), ("udiv", 3), ("sdiv", 3), ("and", 5), ("orr", 6), ("eor", 7),
    ("lsl", 8), ("asr", 9), ("lsr", 10), ("fadd", 0), ("fsub", 1), ("fmul", 2), ("fdiv", 3)]

  ghost predicate Computes(s: string, k: int) {
    exists i :: 0 <= i < |OPERATIONS| && Is(s, OPERATIONS[i].0) && OPERATIONS[i].1 == k
  }

  ghost predicate Arithmetic(s: string) { exists k :: Computes(s, k) }

  // ----- actions -----

  datatype Act =
    | Pass
    | Compute(k: int, dst: nat, a: nat, b: nat)
    | Copy(dst: nat, src: nat)
    | Take(dst: nat)
    | Load(dst: nat, value: nat)
    | CallHost(pool: nat, arg: nat)
    | LoadString(dst: nat, pool: nat)
    | IfEqual(a: nat, b: nat, to: nat)
    | IfZero(a: nat, to: nat)
    | JumpTo(to: nat)
    | Leave
    | LeaveWith(src: nat)

  /** Operand k of a record: a nibble of the bits above the opcode byte. */
  function Nibble(raw: u32, k: nat): (r: nat)
    requires k < 3
    ensures r < 16
  {
    raw / (if k == 0 then 0x100 else if k == 1 then 0x1000 else 0x1_0000) % 16
  }

  /** The last record at a position. */
  function LastAt(kept: Rows, p: int): (r: Option<nat>)
    ensures r.Some? ==> r.value < |kept|
  {
    if kept == [] then None
    else if kept[|kept| - 1].p == p then Some(|kept| - 1)
    else LastAt(kept[..|kept| - 1], p)
  }

  ghost predicate Names(s: string) { s == "invoke" || Mentions(s, "ref") || Mentions(s, "move") || Mentions(s, "if-") }

  ghost predicate IsRefName(s: string) { s == "invoke" || Mentions(s, "ref") }

  ghost predicate Hops(s: string) { s == "nop" || (|s| >= 4 && s[|s| - 4..] == "goto") }

  /** Where record i goes when it jumps: to the record its target names, if that is another
      one; a test without such a target goes on. */
  ghost function Destination(kept: Rows, fam: string, i: nat): Option<nat>
    requires i < |kept|
  {
    var to := if kept[i].target.Some? then LastAt(kept, kept[i].target.value) else None;
    if to.Some? && to.value != i then to
    else if Mentions(fam, "if-") && i + 1 < |kept| then Some(i + 1)
    else None
  }

  /** What record i does. */
  ghost function ActOf(kept: Rows, fams: Families, i: nat): Act
    requires i < |kept|
  {
    var raw := kept[i].raw;
    var fam := if kept[i].op in fams then fams[kept[i].op] else "?";
    var r0, r1, r2, hi: nat := Nibble(raw, 0), Nibble(raw, 1), Nibble(raw, 2), raw / 0x100;
    var to := Destination(kept, fam, i);
    if (Mentions(fam, "if-") || Hops(fam)) && to.None? then Pass
    else if Arithmetic(fam) && !IsRefName(fam) then
      var k :| Computes(fam, k);
      if Mentions(fam, "/2addr") then Compute(k, r0, r0, r1) else Compute(k, r0, r1, r2)
    else if fam == "binary-int" then Compute(0, r0, r1, r2)
    else if fam == "move" || fam == "move/unary" then Copy(r0, r1)
    else if fam == "move-result" || fam == "move-result/const" then Take(r0)
    else if fam == "const" then Load(r0, hi / 16)
    else if fam == "invoke" then CallHost(hi % 65536, r0)
    else if fam == "ref-op" || fam == "const/ref" then LoadString(r0, hi % 65536)
    else if fam == "if-cmp" && to.Some? then IfEqual(r0, r1, to.value)
    else if (fam == "if-testz" || fam == "if-testz/return") && to.Some? then IfZero(r0, to.value)
    else if Is(fam, "wide") || Mentions(fam, "multi-word") then Load(if Names(fam) then r0 else 0, 0)
    else if (fam == "nop" || fam == "nop/goto") && to.Some? then JumpTo(to.value)
    else if "return" <= fam then if Names(fam) then LeaveWith(r0) else Leave
    else Pass
  }

  // ----- the machine -----

  /** The action of record `at`; a place behind the last record is the end. */
  ghost function Does(env: Env, kept: Rows, fams: Families, s: Place): Ends
    requires |s.core.regs| >= 16
  {
    if s.at >= |kept| then Returns(s.core.result, s.core.log) else Acts(env, ActOf(kept, fams, s.at), s)
  }

  predicate ActOk(act: Act) {
    match act
    case Compute(_, dst, a, b) => dst < 16 && a < 16 && b < 16
    case Copy(dst, src) => dst < 16 && src < 16
    case Take(dst) => dst < 16
    case Load(dst, v) => dst < 16 && v < TWO64
    case CallHost(_, arg) => arg < 16
    case LoadString(dst, _) => dst < 16
    case IfEqual(a, b, _) => a < 16 && b < 16
    case IfZero(a, _) => a < 16
    case LeaveWith(src) => src < 16
    case _ => true
  }

  function Acts(env: Env, act: Act, s: Place): Ends
    requires |s.core.regs| >= 16
  {
    var c, regs := s.core, s.core.regs;
    if !ActOk(act) then Fails
    else
      match act
      case Pass => Goes(Place(s.at + 1, c))
      case Compute(k, dst, a, b) => Goes(Place(s.at + 1, c.(regs := regs[dst := env.binary(k, regs[a], regs[b])])))
      case Copy(dst, src) => Goes(Place(s.at + 1, c.(regs := regs[dst := regs[src]])))
      case Take(dst) => Goes(Place(s.at + 1, c.(regs := regs[dst := c.result])))
      case Load(dst, v) => Goes(Place(s.at + 1, c.(regs := regs[dst := v])))
      case CallHost(pool, arg) =>
        var call := Call(Invoke(0), pool, [regs[arg]]);
        Goes(Place(s.at + 1, c.(log := c.log + [call], result := env.host(c.log, call))))
      case LoadString(dst, pool) =>
        var call := Call(ConstString, pool, []);
        Goes(Place(s.at + 1, c.(log := c.log + [call], regs := regs[dst := env.host(c.log, call)])))
      case IfEqual(a, b, to) => Goes(Place(if regs[a] == regs[b] then to else s.at + 1, c))
      case IfZero(a, to) => Goes(Place(if regs[a] == 0 then to else s.at + 1, c))
      case JumpTo(to) => Goes(Place(to, c))
      case Leave => Returns(0, c.log)
      case LeaveWith(src) => Returns(regs[src], c.log)
  }

  lemma ActsKeepsFrame(env: Env, act: Act, s: Place)
    requires |s.core.regs| >= 16 && Acts(env, act, s).Goes?
    ensures |Acts(env, act, s).p.core.regs| == |s.core.regs|
  {
  }

  ghost function DoesFor(env: Env, kept: Rows, fams: Families, s: Place, n: nat): Ends
    requires |s.core.regs| >= 16
    decreases n
  {
    if n == 0 then Goes(s)
    else
      match Does(env, kept, fams, s)
      case Goes(s') => DoesKeepsFrame(env, kept, fams, s); DoesFor(env, kept, fams, s', n - 1)
      case e => e
  }

  lemma DoesKeepsFrame(env: Env, kept: Rows, fams: Families, s: Place)
    requires |s.core.regs| >= 16 && Does(env, kept, fams, s).Goes?
    ensures |Does(env, kept, fams, s).p.core.regs| == |s.core.regs|
  {
    hide ActOf, Acts;
    ActsKeepsFrame(env, ActOf(kept, fams, s.at), s);
  }

  // ----- names, as the translation tests them -----

  lemma {:induction false} ContainsIff(s: string, sub: string)
    ensures M.Contains(s, sub) <==> Mentions(s, sub)
  {
    if sub <= s {
      assert OccursAt(s, sub, 0);
    } else if s != [] {
      ContainsIff(s[1..], sub);
      if Mentions(s[1..], sub) {
        var i :| OccursAt(s[1..], sub, i);
        assert OccursAt(s, sub, i + 1);
      }
      if Mentions(s, sub) {
        var i :| OccursAt(s, sub, i);
        assert i > 0;
        assert OccursAt(s[1..], sub, i - 1);
      }
    }
  }

  lemma {:induction false} SlashFound(s: string)
    ensures var n := M.FindSlash(s);
      (forall i :: 0 <= i < n ==> s[i] != '/') && (n < |s| ==> s[n] == '/')
  {
    if s != [] && s[0] != '/' { SlashFound(s[1..]); }
  }

  lemma BaseIff(s: string, name: string)
    requires '/' !in name
    ensures M.Base(s) == name <==> Is(s, name)
  {
    var n := M.FindSlash(s);
    SlashFound(s);
    if Is(s, name) {
      if s != name { assert s[|name|] == (name + "/")[|name|]; }
      assert n == |name|;
    }
    if M.Base(s) == name && n < |s| {
      assert name + "/" == s[..n + 1];
    }
  }

  lemma OperationAt(s: string, i: nat)
    requires i < |OPERATIONS|
    ensures M.Base(s) == OPERATIONS[i].0 <==> Is(s, OPERATIONS[i].0)
  {
    assert '/' !in OPERATIONS[i].0;
    BaseIff(s, OPERATIONS[i].0);
  }

  lemma AluIs(s: string)
    ensures M.AluOf(M.Base(s)).None? ==> forall k :: !Computes(s, k)
    ensures M.AluOf(M.Base(s)).Some? ==>
      forall k :: Computes(s, k) <==> k == (M.AluOf(M.Base(s)).value - 0x90) % 11
  {
    hide M.Base, Is;
    forall i | 0 <= i < |OPERATIONS|
      ensures M.Base(s) == OPERATIONS[i].0 <==> Is(s, OPERATIONS[i].0)
    {
      OperationAt(s, i);
    }
    var b := M.Base(s);
    if M.AluOf(b).Some? {
      var i := Listed(b);
      assert Computes(s, OPERATIONS[i].1);
      forall k | Computes(s, k) ensures k == OPERATIONS[i].1 {
        var j :| 0 <= j < |OPERATIONS| && Is(s, OPERATIONS[j].0) && OPERATIONS[j].1 == k;
        NamesDiffer(i, j);
      }
    }
  }

  lemma AluIff(s: string)
    ensures M.AluOf(M.Base(s)).Some? <==> Arithmetic(s)
  {
    hide M.Base, M.AluOf, Computes;
    AluIs(s);
    if M.AluOf(M.Base(s)).Some? { assert Computes(s, (M.AluOf(M.Base(s)).value - 0x90) % 11); }
  }

  lemma NamesDiffer(i: nat, j: nat)
    requires i < |OPERATIONS| && j < |OPERATIONS| && OPERATIONS[i].0 == OPERATIONS[j].0
    ensures OPERATIONS[i].1 == OPERATIONS[j].1
  {
  }

  lemma Listed(b: string) returns (i: nat)
    requires M.AluOf(b).Some?
    ensures i < |OPERATIONS| && OPERATIONS[i].0 == b && OPERATIONS[i].1 == (M.AluOf(b).value - 0x90) % 11
  {
    i := if b == "add" then 0 else if b == "sub" then 1 else if b == "mul" then 2 else if b == "udiv" then 3
      else if b == "sdiv" then 4 else if b == "and" then 5 else if b == "orr" then 6 else if b == "eor" then 7
      else if b == "lsl" then 8 else if b == "asr" then 9 else if b == "lsr" then 10 else if b == "fadd" then 11
      else if b == "fsub" then 12 else if b == "fmul" then 13 else 14;
  }

  // ----- which letters a name has -----

  lemma LetterAt(s: string, sub: string, i: int, j: nat)
    requires OccursAt(s, sub, i) && j < |sub|
    ensures s[i + j] == sub[j]
  {
    assert s[i + j] == s[i..i + |sub|][j];
  }

  lemma LettersOccur(s: string, sub: string, c: char)
    requires Mentions(s, sub) && c in sub
    ensures c in s
  {
    var i :| OccursAt(s, sub, i);
    var j :| 0 <= j < |sub| && sub[j] == c;
    LetterAt(s, sub, i, j);
  }

  lemma MissingLetter(s: string, sub: string, c: char)
    requires c in sub && c !in s
    ensures !Mentions(s, sub)
  {
    if Mentions(s, sub) { LettersOccur(s, sub, c); }
  }

  lemma RefHasF(s: string)
    requires Mentions(s, "ref") && |s| >= 2
    ensures 'f' in s[2..]
  {
    var i :| OccursAt(s, "ref", i);
    LetterAt(s, "ref", i, 2);
    assert s[i + 2] == s[2..][i];
  }

  lemma ArithmeticLetters(s: string, k: int)
    requires Computes(s, k)
    ensures |s| >= 3 && s[0] in "asmuoelf" && (s[0] == 'm' ==> s[1] == 'u')
  {
    var i :| 0 <= i < |OPERATIONS| && Is(s, OPERATIONS[i].0) && OPERATIONS[i].1 == k;
    var name := OPERATIONS[i].0;
    assert |name| >= 3 && name[0] in "asmuoelf" && (name[0] == 'm' ==> name[1] == 'u');
    assert s == name || (s[0] == (name + "/")[0] && s[1] == (name + "/")[1]);
  }

  /** Which registers and operands the decoder takes, family by family. */
  lemma RefFamilies()
    ensures M.IsRef("invoke") && M.IsRef("ref-op") && M.IsRef("const/ref")
    ensures IsRefName("invoke") && IsRefName("ref-op") && IsRefName("const/ref")
  {
    assert OccursAt("ref-op", "ref", 0) && OccursAt("const/ref", "ref", 6);
  }

  lemma PlainFamily(s: string)
    requires s in ["binary-int", "move", "move/unary", "move-result", "move-result/const", "const", "if-cmp",
                   "if-testz"]
    ensures !IsRefName(s)
  {
    if 'f' !in s { MissingLetter(s, "ref", 'f'); } else { MissingLetter(s, "ref", 'r'); }
  }

  lemma TestReturn()
    ensures !IsRefName("if-testz/return") && !Mentions("if-testz/return", "move")
  {
    var s := "if-testz/return";
    MissingLetter(s, "move", 'v');
    assert s[2..] == "-testz/return";
    if Mentions(s, "ref") { RefHasF(s); }
  }

  lemma MoveFamilies(s: string)
    requires s in ["move", "move/unary", "move-result", "move-result/const"]
    ensures Mentions(s, "move") && !Mentions(s, "if-")
  {
    assert OccursAt(s, "move", 0);
    MissingLetter(s, "if-", 'f');
  }

  lemma TestFamilies(s: string)
    requires s in ["if-cmp", "if-testz", "if-testz/return"]
    ensures Mentions(s, "if-") && !Mentions(s, "move") && !IsRefName(s)
  {
    assert OccursAt(s, "if-", 0);
    MissingLetter(s, "move", 'v');
    if s == "if-testz/return" { TestReturn(); } else { PlainFamily(s); }
  }

  lemma ConstFamily()
    ensures !Mentions("const", "move") && !Mentions("const", "if-") && !IsRefName("const")
  {
    MissingLetter("const", "move", 'v');
    MissingLetter("const", "if-", 'f');
    PlainFamily("const");
  }

  lemma NopFamilies(s: string)
    requires s in ["nop", "nop/goto"]
    ensures !Mentions(s, "if-") && !Mentions(s, "multi-word") && Hops(s) && !IsRefName(s) && !Mentions(s, "move")
  {
    MissingLetter(s, "if-", 'f');
    MissingLetter(s, "multi-word", 'm');
    MissingLetter(s, "ref", 'f');
    MissingLetter(s, "move", 'v');
    assert "nop/goto"[4..] == "goto";
  }

  lemma HopsIff(s: string)
    ensures M.IsGoto(s) <==> Hops(s)
  {
    assert "nop/goto"[4..] == "goto" && "goto"[0..] == "goto";
  }

  // ----- the effect of an action -----

  function EffectOf(act: Act): Effect {
    match act
    case Pass => Skip
    case Compute(k, dst, a, b) => Binary(k, dst, a, b)
    case Copy(dst, src) => Move(dst, src)
    case Take(dst) => TakeResult(dst)
    case Load(dst, v) => Set(dst, v % TWO64)
    case CallHost(pool, arg) => Host(Invoke(0), pool, [arg], Result)
    case LoadString(dst, pool) => Host(ConstString, pool, [], Reg(dst))
    case IfEqual(a, b, to) => If(0, a, Some(b), to)
    case IfZero(a, to) => If(0, a, None, to)
    case JumpTo(to) => Goto(to, true)
    case Leave => LeaveZero
    case LeaveWith(src) => LeaveReg(src)
  }

  predicate Jumps(act: Act) { act.IfEqual? || act.IfZero? || act.JumpTo? }

  /** The instruction carries out the action, and branches where the action does. */
  ghost predicate CarriesOut(ins: Instr, act: Act) {
    && Meaning(Norm(ins)) == EffectOf(act)
    && (IsBranch(Norm(ins)) <==> Jumps(act)) && (Jumps(act) ==> Target(Norm(ins)) == act.to)
  }

  lemma CarriesThree(op: byte, a: nat, b: nat, c: nat)
    requires 0x90 <= op <= 0xaf
    ensures CarriesOut(M.Ins(op, [a, b, c]), Compute((op - 0x90) % 11, a, b, c))
  {
    assert Fmt(M.Ins(op, [a, b, c])) == F23x;
  }

  lemma CarriesTwo(op: byte, a: nat, b: nat)
    requires 0xb0 <= op <= 0xcf
    ensures CarriesOut(M.Ins(op, [a, b]), Compute((op - 0xb0) % 11, a, a, b))
  {
    assert Fmt(M.Ins(op, [a, b])) == F12x;
  }

  lemma CarriesMove(a: nat, b: nat)
    ensures CarriesOut(M.Ins(0x01, [a, b]), Copy(a, b))
  {
  }

  lemma CarriesTake(a: nat)
    ensures CarriesOut(M.Ins(0x0a, [a]), Take(a))
  {
  }

  lemma CarriesConst(a: nat, v: nat)
    requires v < 0x10_0000
    ensures CarriesOut(M.ConstInstr(a, v), Load(a, v))
  {
  }

  lemma CarriesWide(a: nat)
    ensures CarriesOut(M.Ins(0x16, [a, 0]), Load(a, 0))
  {
  }

  lemma CarriesCall(pool: nat, a: nat)
    ensures CarriesOut(Instr(0x6e, [0, pool], [a]), CallHost(pool % 65536, a))
  {
  }

  lemma CarriesString(a: nat, pool: nat)
    ensures CarriesOut(M.Ins(0x1a, [a, pool]), LoadString(a, pool % 65536))
  {
  }

  lemma CarriesEqual(a: nat, b: nat, to: nat)
    ensures CarriesOut(M.Ins(0x32, [a, b, to]), IfEqual(a, b, to))
  {
  }

  lemma CarriesZero(a: nat, to: nat)
    ensures CarriesOut(M.Ins(0x38, [a, to]), IfZero(a, to))
  {
  }

  lemma CarriesJump(to: nat)
    ensures CarriesOut(M.Ins(0x28, [to]), JumpTo(to))
  {
  }

  lemma CarriesLeave(a: nat)
    ensures CarriesOut(M.Ins(0x0e, []), Leave) && CarriesOut(M.Ins(0x0f, [a]), LeaveWith(a))
  {
  }

  lemma CarriesPass()
    ensures CarriesOut(M.NOP, Pass)
  {
  }

  // ----- from families to instructions -----

  lemma AluCase(d: M.VmInstr, k: int, a: nat, b: nat, c: nat)
    requires Computes(d.family, k) && d.vregs == [a, b, c]
    ensures CarriesOut(M.ToDalvik(d), if Mentions(d.family, "/2addr") then Compute(k, a, a, b) else Compute(k, a, b, c))
  {
    hide M.Base, M.AluOf, M.Contains, CarriesOut, Mentions, Computes;
    AluIff(d.family);
    AluIs(d.family);
    ContainsIff(d.family, "/2addr");
    var op := M.AluOf(M.Base(d.family)).value;
    CarriesThree(op, a, b, c);
    CarriesTwo(op + 0x20, a, b);
  }

  lemma NoAlu(d: M.VmInstr)
    requires !Arithmetic(d.family) || |d.vregs| <= 1
    ensures M.AluInstr(d.family, d.vregs) == None
  {
    hide M.Base, M.AluOf, M.Contains, Arithmetic;
    AluIff(d.family);
  }

  lemma NoLetters(s: string)
    requires |s| < 3 || s[0] !in "asmuoelf" || (s[0] == 'm' && s[1] != 'u')
    ensures !Arithmetic(s)
  {
    hide Computes;
    if Arithmetic(s) {
      var k :| Computes(s, k);
      ArithmeticLetters(s, k);
    }
  }

  /** Families that are recognised by their whole name. */
  lemma NamedCase(d: M.VmInstr, a: nat, b: nat, c: nat)
    requires d.family in ["binary-int", "move", "move/unary", "move-result", "move-result/const"]
    requires d.vregs == if d.family == "binary-int" then [a, b, c] else [a, b]
    ensures CarriesOut(M.ToDalvik(d), if d.family == "binary-int" then Compute(0, a, b, c)
                                      else if d.family == "move" || d.family == "move/unary" then Copy(a, b)
                                      else Take(a))
  {
    hide M.Base, M.AluOf, M.Contains, CarriesOut, M.AluInstr, M.OtherInstr, M.ConstInstr;
    NoLetters(d.family);
    NoAlu(d);
    CarriesThree(0x90, a, b, c);
    CarriesMove(a, b);
    CarriesTake(a);
  }

  lemma ConstCase(d: M.VmInstr, a: nat, v: nat)
    requires d.family == "const" && d.vregs == [a] && d.lit == Some(v) && v < 0x10_0000
    ensures CarriesOut(M.ToDalvik(d), Load(a, v))
  {
    hide M.Base, M.AluOf, M.Contains, CarriesOut, M.AluInstr, M.OtherInstr, M.ConstInstr;
    NoLetters(d.family);
    NoAlu(d);
    CarriesConst(a, v);
  }

  lemma RefCase(d: M.VmInstr, a: nat, pool: nat)
    requires d.family in ["invoke", "ref-op", "const/ref"] && d.vregs == [a] && d.pool == Some(pool)
    ensures CarriesOut(M.ToDalvik(d), if d.family == "invoke" then CallHost(pool % 65536, a)
                                      else LoadString(a, pool % 65536))
  {
    hide M.Base, M.AluOf, M.Contains, CarriesOut, M.AluInstr, M.OtherInstr, M.ConstInstr;
    NoLetters(d.family);
    NoAlu(d);
    CarriesCall(pool, a);
    CarriesString(a, pool);
  }

  lemma TestCase(d: M.VmInstr, a: nat, b: nat, to: nat)
    requires d.family in ["if-cmp", "if-testz", "if-testz/return"] && d.vregs == [a, b] && d.target == Some(to)
    ensures CarriesOut(M.ToDalvik(d), if d.family == "if-cmp" then IfEqual(a, b, to) else IfZero(a, to))
  {
    hide M.Base, M.AluOf, M.Contains, CarriesOut, M.AluInstr, M.ConstInstr;
    NoLetters(d.family);
    NoAlu(d);
    CarriesEqual(a, b, to);
    CarriesZero(a, to);
  }

  lemma NopCase(d: M.VmInstr)
    requires d.family == "nop" || d.family == "nop/goto"
    requires d.target.Some? ==> d.target.value >= 0
    ensures CarriesOut(M.ToDalvik(d), if d.target.Some? then JumpTo(d.target.value) else Pass)
  {
    hide M.Base, M.AluOf, M.Contains, CarriesOut, M.AluInstr, M.ConstInstr, Is;
    NoLetters(d.family);
    NoAlu(d);
    NopFamilies(d.family);
    ContainsIff(d.family, "multi-word");
    BaseIff(d.family, "wide");
    NopIsNotWide(d.family);
    CarriesPass();
    if d.target.Some? { CarriesJump(d.target.value); }
  }

  lemma NopIsNotWide(s: string)
    requires s == "nop" || s == "nop/goto"
    ensures !Is(s, "wide")
  {
    assert "wide/"[0] != s[0];
  }

  predicate Known(s: string) {
    s in ["binary-int", "move", "move/unary", "move-result", "move-result/const", "const", "invoke", "ref-op",
          "const/ref", "if-cmp", "if-testz", "if-testz/return", "nop", "nop/goto"]
  }

  /** All other families. */
  lemma OtherCase(d: M.VmInstr, first: nat)
    requires !Known(d.family) && M.AluInstr(d.family, d.vregs) == None && d.lit == None
    requires first == if d.vregs == [] then 0 else d.vregs[0]
    ensures CarriesOut(M.ToDalvik(d),
      if Is(d.family, "wide") || Mentions(d.family, "multi-word") then Load(first, 0)
      else if "return" <= d.family then if d.vregs == [] then Leave else LeaveWith(first)
      else Pass)
  {
    hide M.Base, M.AluOf, M.Contains, CarriesOut, M.AluInstr, M.ConstInstr, Is, Mentions;
    ContainsIff(d.family, "multi-word");
    BaseIff(d.family, "wide");
    CarriesWide(first);
    CarriesLeave(first);
    CarriesPass();
  }

  // ----- from records to families -----

  lemma {:induction false} IndexIsLast(kept: Rows, n: nat, p: int)
    requires n <= |kept|
    ensures LastAt(kept[..n], p) == if p in M.IndexTo(kept, n) then Some(M.IndexTo(kept, n)[p]) else None
    decreases n
  {
    if n > 0 {
      IndexIsLast(kept, n - 1, p);
      assert kept[..n][..n - 1] == kept[..n - 1];
    }
  }

  lemma NibblesOf(raw: u32)
    ensures var hi: nat := raw / 256;
      Nibble(raw, 0) == hi % 16 && Nibble(raw, 1) == hi / 16 % 16 && Nibble(raw, 2) == hi / 256 % 16
  {
    assert raw / 0x1000 == raw / 256 / 16 && raw / 0x1_0000 == raw / 256 / 256;
  }

  /** The registers the decoder takes from a record. */
  lemma RegsOf(fam: string, raw: u32)
    ensures var v, r0, r1, r2 := M.VRegs(fam, raw / 256), Nibble(raw, 0), Nibble(raw, 1), Nibble(raw, 2);
      v == if IsRefName(fam) then [r0]
           else if Arithmetic(fam) || fam == "binary-int" then [r0, r1, r2]
           else if Mentions(fam, "move") || Mentions(fam, "if-") then [r0, r1]
           else if fam == "const" then [r0]
           else []
  {
    hide M.Base, M.AluOf, M.Contains, Mentions, Arithmetic;
    NibblesOf(raw);
    ContainsIff(fam, "ref");
    ContainsIff(fam, "move");
    ContainsIff(fam, "if-");
    AluIff(fam);
    RefFamilies();
  }

  function FamilyAt(kept: Rows, fams: Families, i: nat): string
    requires i < |kept|
  {
    if kept[i].op in fams then fams[kept[i].op] else "?"
  }

  function VmAt(kept: Rows, fams: Families, i: nat): M.VmInstr
    requires i < |kept|
  {
    M.Sanitise(M.Decode(kept[i], fams, M.IndexTo(kept, |kept|)), i, |kept|)
  }

  lemma LiteralIff(fam: string)
    ensures M.HasLit(fam) <==> fam == "const"
  {
    hide M.Base, M.AluOf, M.Contains, Mentions, Arithmetic;
    ContainsIff(fam, "ref");
    ContainsIff(fam, "move");
    ContainsIff(fam, "if-");
    AluIff(fam);
    ConstFamily();
    NoLetters("const");
  }

  /** What decoding and target repair make of a record. */
  lemma DecodedParts(kept: Rows, fams: Families, i: nat)
    requires i < |kept|
    ensures var fam, d := FamilyAt(kept, fams, i), VmAt(kept, fams, i);
      var jumpy, to := Mentions(fam, "if-") || Hops(fam), Destination(kept, fam, i);
      if jumpy && to.None? then d.family == "nop" && d.target == None
      else
        && d.family == fam && d.vregs == M.VRegs(fam, kept[i].raw / 256)
        && d.pool == (if IsRefName(fam) then Some(kept[i].raw / 256) else None)
        && d.lit == (if fam == "const" then Some(kept[i].raw / 256 / 16) else None)
        && (jumpy ==> d.target == to)
  {
    hide M.Base, M.AluOf, M.Contains, Mentions, Arithmetic, M.VRegs, M.HasLit, Hops, M.IsGoto;
    var fam := FamilyAt(kept, fams, i);
    ContainsIff(fam, "ref");
    ContainsIff(fam, "if-");
    HopsIff(fam);
    LiteralIff(fam);
    RefFamilies();
    assert kept[..|kept|] == kept;
    if kept[i].target.Some? { IndexIsLast(kept, |kept|, kept[i].target.value); }
  }

  /** Every instruction of a recovered body carries out the action of its record. */
  lemma RecordCarried(kept: Rows, fams: Families, i: nat)
    requires i < |kept|
    ensures CarriesOut(M.ToDalvik(VmAt(kept, fams, i)), ActOf(kept, fams, i))
  {
    hide M.ToDalvik, VmAt, CarriesOut, Mentions, Computes, Is, M.VRegs, Hops, Nibble, Destination, LastAt;
    var fam, d, raw := FamilyAt(kept, fams, i), VmAt(kept, fams, i), kept[i].raw;
    var r0, r1, r2, to := Nibble(raw, 0), Nibble(raw, 1), Nibble(raw, 2), Destination(kept, fam, i);
    DecodedParts(kept, fams, i);
    RegsOf(fam, raw);
    if (Mentions(fam, "if-") || Hops(fam)) && to.None? {
      NopCase(d);
    } else if Arithmetic(fam) && !IsRefName(fam) {
      ArithmeticUnique(fam);
      AluCase(d, ActOf(kept, fams, i).k, r0, r1, r2);
    } else if Known(fam) {
      KnownCase(kept, fams, i);
    } else {
      NoAlu(d);
      OtherCase(d, if Names(fam) then r0 else 0);
    }
  }

  lemma ArithmeticUnique(s: string)
    ensures forall j, k :: Computes(s, j) && Computes(s, k) ==> j == k
  {
    hide Computes, M.AluOf, M.Base;
    AluIs(s);
  }

  lemma KnownCase(kept: Rows, fams: Families, i: nat)
    requires i < |kept| && Known(FamilyAt(kept, fams, i))
    requires var fam := FamilyAt(kept, fams, i);
      && !((Mentions(fam, "if-") || Hops(fam)) && Destination(kept, fam, i).None?)
      && !(Arithmetic(fam) && !IsRefName(fam))
    ensures CarriesOut(M.ToDalvik(VmAt(kept, fams, i)), ActOf(kept, fams, i))
  {
    hide M.ToDalvik, VmAt, CarriesOut, Mentions, Arithmetic, Is, M.VRegs, Hops, Nibble, Destination, LastAt;
    var fam, d, raw := FamilyAt(kept, fams, i), VmAt(kept, fams, i), kept[i].raw;
    var r0, r1, r2, to := Nibble(raw, 0), Nibble(raw, 1), Nibble(raw, 2), Destination(kept, fam, i);
    DecodedParts(kept, fams, i);
    RegsOf(fam, raw);
    if fam == "binary-int" {
      PlainFamily(fam);
      NamedCase(d, r0, r1, r2);
    } else if fam in ["move", "move/unary", "move-result", "move-result/const"] {
      PlainFamily(fam);
      MoveFamilies(fam);
      NamedCase(d, r0, r1, r2);
    } else if fam == "const" {
      ConstFamily();
      ConstCase(d, r0, raw / 256 / 16);
    } else if fam in ["invoke", "ref-op", "const/ref"] {
      RefFamilies();
      RefCase(d, r0, raw / 256);
    } else if fam in ["if-cmp", "if-testz", "if-testz/return"] {
      TestFamilies(fam);
      TestCase(d, r0, r1, to.value);
    } else {
      NopFamilies(fam);
      NopIsNotWide(fam);
      NopCase(d);
    }
  }

  // ----- the recovered body does what the trace does -----

  lemma ActKept(kept: Rows, fams: Families, i: nat)
    requires i < |kept|
    ensures var act := ActOf(kept, fams, i);
      ActOk(act) && (Jumps(act) ==> act.to != i && act.to < |kept|)
  {
    hide Mentions, Computes, Is, Hops, Nibble, LastAt;
    var fam := FamilyAt(kept, fams, i);
    DestinationKept(kept, fam, i);
  }

  lemma DestinationKept(kept: Rows, fam: string, i: nat)
    requires i < |kept|
    ensures var to := Destination(kept, fam, i);
      to.Some? ==> to.value != i && to.value < |kept|
  {
  }

  lemma SlotsCompare(x: u64, y: u64)
    ensures Sext(x, HALF64) == Sext(y, HALF64) <==> x == y
    ensures Sext(x, HALF64) == 0 <==> x == 0
  {
  }

  lemma ApplyAct(env: Env, act: Act, s: Place)
    requires |s.core.regs| >= 16 && ActOk(act)
    ensures Acts(env, act, s) == match Apply(env, s.core, EffectOf(act))
      case Fault => Fails
      case Left(v, log) => Returns(v, log)
      case Next(core, taken) => Goes(Place(if taken && Jumps(act) then act.to else s.at + 1, core))
  {
    hide Sext;
    match act
    case IfEqual(a, b, to) => SlotsCompare(s.core.regs[a], s.core.regs[b]);
    case IfZero(a, to) => SlotsCompare(s.core.regs[a], 0);
    case CallHost(pool, arg) => assert Values(s.core, [arg]) == [s.core.regs[arg]];
    case LoadString(dst, pool) => assert Values(s.core, []) == [];
    case _ =>
  }

  lemma BodyAt(rows: Rows, fams: Families, i: nat)
    requires i < |M.Kept(rows)|
    ensures M.Body(rows, fams)[i] == M.ToDalvik(VmAt(M.Kept(rows), fams, i))
  {
    hide M.ToDalvik, M.Kept, M.IndexTo, M.Decode, M.Sanitise;
  }

  /** One turn of the recovered body is the action of one record. */
  lemma BodyFollows(env: Env, rows: Rows, fams: Families, s: Place)
    requires |s.core.regs| >= 16
    ensures StepList(env, NormAll(M.Body(rows, fams)), s) == Does(env, M.Kept(rows), fams, s)
  {
    hide M.ToDalvik, M.Kept, M.Body, VmAt, ActOf, Acts, Apply, Meaning, Norm, ActOk, EffectOf, IsBranch, Target;
    var kept := M.Kept(rows);
    if s.at < |kept| {
      BodyAt(rows, fams, s.at);
      RecordCarried(kept, fams, s.at);
      ActKept(kept, fams, s.at);
      ApplyAct(env, ActOf(kept, fams, s.at), s);
    }
  }

  /** Trace fidelity. Every trace, read by itself as a program of records, and the body
      recovered from it do the same, for every host, arithmetic, start and number of
      steps: same registers, same results, same calls to the host, same way out. */
  lemma {:induction false} BodyFollowsTrace(env: Env, rows: Rows, fams: Families, s: Place, n: nat)
    requires |s.core.regs| >= 16
    ensures StepsList(env, NormAll(M.Body(rows, fams)), s, n) == DoesFor(env, M.Kept(rows), fams, s, n)
    decreases n
  {
    hide StepList, Does, M.Kept, M.Body, NormAll;
    if n > 0 {
      BodyFollows(env, rows, fams, s);
      match Does(env, M.Kept(rows), fams, s)
      case Goes(s') => {
        DoesKeepsFrame(env, M.Kept(rows), fams, s);
        BodyFollowsTrace(env, rows, fams, s', n - 1);
      }
      case _ =>
    }
  }
}

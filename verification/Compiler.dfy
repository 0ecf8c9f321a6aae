/** Lowering IR to machine code, and the proof that it preserves meaning. */
module Compiler {
  import opened Wrappers
  import opened Bytes
  import opened X86
  import opened Ir

  function Lower(ins: Instr): seq<Insn>
    requires !ins.op.Call?
  {
    match ins.op
    case Const =>
      if -128 <= ins.arg <= 127 then [PushImm8(ins.arg)]
      else [MovImm64(Rax, Wrap(ins.arg)), Push(Rax)]
    case Add | Sub | Mul => [Pop(Rax), Pop(Rbx), ArithmeticInsn(ins.op), Push(Rax)]
    case Load => [Pop(Rax), MovFromMem(Rax, Rax), Push(Rax)]
    case Store => [Pop(Rax), Pop(Rbx), MovToMem(Rax, Rbx)]
    case Ret => [Pop(Rax), RetNear]
  }

  function ArithmeticInsn(op: OpKind): Insn
    requires op.Add? || op.Sub? || op.Mul?
  {
    match op case Add => AddRR(Rax, Rbx) case Sub => SubRR(Rax, Rbx) case Mul => ImulRR(Rax, Rbx)
  }

  function LowerAll(code: seq<Instr>): seq<Insn>
    requires CallFree(code)
  {
    if code == [] then [] else Lower(code[0]) + LowerAll(code[1..])
  }

  /** A whole function: its lowered code and the defensive `ret`. */
  function CompileFunction(code: seq<Instr>): seq<Insn>
    requires CallFree(code)
  {
    LowerAll(code) + [RetNear]
  }

  /** Unique decodability: a linear sweep over an emitted function finds exactly the instructions emitted. */
  lemma FunctionDisassembles(code: seq<Instr>)
    requires CallFree(code)
    ensures Disassemble(EncodeAll(CompileFunction(code))) == Some(CompileFunction(code))
  {
    DisassembleEncodeAll(CompileFunction(code));
  }

  // ---- Arithmetic ----

  lemma WrapShift(a: int, k: int)
    ensures Wrap(a + k * TWO_64) == Wrap(a)
  {
  }

  /** The signed product and the unsigned product agree in their low 64 bits. */
  lemma SignedProduct(a: Word, b: Word)
    ensures Wrap(Signed(a) * Signed(b)) == Wrap(a * b)
  {
    var x, y := if Signed(a) == a then 0 else 1, if Signed(b) == b then 0 else 1;
    assert Signed(a) == a - x * TWO_64 && Signed(b) == b - y * TWO_64;
    calc {
      Signed(a) * Signed(b);
      (a - x * TWO_64) * (b - y * TWO_64);
      a * b + (x * y * TWO_64 - x * b - y * a) * TWO_64;
    }
    WrapShift(a * b, x * y * TWO_64 - x * b - y * a);
  }

  // ---- One IR instruction ----

  lemma ExecAll1(a: Insn, m: Machine)
    ensures ExecAll([a], m) == Then(m, a)
  {
    hide Then;
    assert [a][1..] == [];
  }

  lemma ExecAll2(a: Insn, b: Insn, m: Machine)
    ensures ExecAll([a, b], m) == Then(Then(m, a), b)
  {
    hide Then;
    assert [a, b][1..] == [b];
    ExecAll1(b, Then(m, a));
  }

  lemma ExecAll3(a: Insn, b: Insn, c: Insn, m: Machine)
    ensures ExecAll([a, b, c], m) == Then(Then(Then(m, a), b), c)
  {
    hide Then;
    assert [a, b, c][1..] == [b, c];
    ExecAll2(b, c, Then(m, a));
  }

  lemma ExecAll4(a: Insn, b: Insn, c: Insn, d: Insn, m: Machine)
    ensures ExecAll([a, b, c, d], m) == Then(Then(Then(Then(m, a), b), c), d)
  {
    hide Then;
    assert [a, b, c, d][1..] == [b, c, d];
    ExecAll3(b, c, d, Then(m, a));
  }

  /** The machine is running in state `s`. */
  predicate In(m: Machine, s: State) {
    m.Running? && m.state == s
  }

  lemma PopStep(m: Machine, r: Reg)
    requires m.Running? && m.state.stack != []
    ensures var s := m.state;
            In(Then(m, Pop(r)), State(s.regs.Set(r, s.stack[0]), s.stack[1..], s.mem))
  {
    hide Encode, ReadWord, WriteWord, Wrap, Signed;
  }

  lemma PushStep(m: Machine, r: Reg)
    requires m.Running?
    ensures var s := m.state;
            In(Then(m, Push(r)), State(s.regs, [s.regs.Get(r)] + s.stack, s.mem))
  {
    hide Encode, ReadWord, WriteWord, Wrap, Signed;
  }

  lemma RetStep(m: Machine)
    requires m.Running? && m.state.stack != []
    ensures var s := m.state;
            Then(m, RetNear) == Exited(s.stack[0], State(s.regs, s.stack[1..], s.mem))
  {
    hide Encode, ReadWord, WriteWord, Wrap, Signed;
  }

  lemma PopTwo(m: Machine)
    requires m.Running? && |m.state.stack| >= 2
    ensures var s := m.state;
            In(Then(Then(m, Pop(Rax)), Pop(Rbx)),
               State(s.regs.(rax := s.stack[0], rbx := s.stack[1]), s.stack[2..], s.mem))
  {
    hide Then;
    PopStep(m, Rax);
    PopStep(Then(m, Pop(Rax)), Rbx);
    assert m.state.stack[1..][1..] == m.state.stack[2..];
  }

  /** The machine is running with `stack` on top of `base` in its stack, and `mem` as data memory. */
  predicate Holds(m: Machine, stack: seq<Word>, base: seq<Word>, mem: Memory) {
    m.Running? && m.state.stack == stack + base && m.state.mem == mem
  }

  lemma PushHolds(m: Machine, r: Reg, stack: seq<Word>, base: seq<Word>, mem: Memory)
    requires Holds(m, stack, base, mem)
    ensures Holds(Then(m, Push(r)), [m.state.regs.Get(r)] + stack, base, mem)
  {
    hide Then;
    PushStep(m, r);
    var w := m.state.regs.Get(r);
    assert [w] + (stack + base) == [w] + stack + base;
  }

  /** `op rax, rbx` computes what the IR operation computes. */
  lemma ArithmeticStep(op: OpKind, m: Machine)
    requires m.Running? && (op.Add? || op.Sub? || op.Mul?)
    ensures var s := m.state;
            In(Then(m, ArithmeticInsn(op)), s.(regs := s.regs.(rax := Combine(op, s.regs.rax, s.regs.rbx))))
  {
    hide Encode, ReadWord, WriteWord, Wrap, Signed;
    SignedProduct(m.state.regs.rax, m.state.regs.rbx);
  }

  lemma ArithmeticLowered(ins: Instr, m: Machine, stack: seq<Word>, base: seq<Word>)
    requires ins.op.Add? || ins.op.Sub? || ins.op.Mul?
    requires m.Running? && m.state.stack == stack + base && |stack| >= 2
    ensures Holds(ExecAll(Lower(ins), m), [Combine(ins.op, stack[0], stack[1])] + stack[2..], base, m.state.mem)
  {
    hide ExecAll, Then;
    var op := ArithmeticInsn(ins.op);
    ExecAll4(Pop(Rax), Pop(Rbx), op, Push(Rax), m);
    var m2 := Then(Then(m, Pop(Rax)), Pop(Rbx));
    PopTwo(m);
    ArithmeticStep(ins.op, m2);
    assert (stack + base)[2..] == stack[2..] + base;
    PushHolds(Then(m2, op), Rax, stack[2..], base, m.state.mem);
  }

  lemma ConstLowered(ins: Instr, m: Machine, stack: seq<Word>, base: seq<Word>)
    requires ins.op.Const? && m.Running? && m.state.stack == stack + base
    ensures Holds(ExecAll(Lower(ins), m), [Wrap(ins.arg)] + stack, base, m.state.mem)
  {
    hide LittleEndian;
    var w := Wrap(ins.arg);
    if -128 <= ins.arg <= 127 {
      assert Lower(ins)[1..] == [];
      assert ExecAll(Lower(ins), m) == Then(m, PushImm8(ins.arg));
      assert [w] + (stack + base) == [w] + stack + base;
    } else {
      var move := MovImm64(Rax, w);
      ExecAll2(move, Push(Rax), m);
      PushHolds(Then(m, move), Rax, stack, base, m.state.mem);
    }
  }

  lemma LoadStep(m: Machine, d: Reg, b: Reg)
    requires m.Running?
    ensures var s := m.state;
            match ReadWord(s.mem, s.regs.Get(b))
            case Some(w) => In(Then(m, MovFromMem(d, b)), s.(regs := s.regs.Set(d, w)))
            case None => Then(m, MovFromMem(d, b)) == Faulted
  {
    hide Encode, ReadWord, WriteWord, Wrap, Signed;
  }

  lemma LoadLowered(ins: Instr, m: Machine, stack: seq<Word>, base: seq<Word>)
    requires ins.op.Load? && m.Running? && m.state.stack == stack + base && |stack| >= 1
    ensures var final := ExecAll(Lower(ins), m);
            match ReadWord(m.state.mem, stack[0])
            case Some(w) => Holds(final, [w] + stack[1..], base, m.state.mem)
            case None => final == Faulted
  {
    hide ExecAll, Then, ReadWord;
    var load := MovFromMem(Rax, Rax);
    ExecAll3(Pop(Rax), load, Push(Rax), m);
    PopStep(m, Rax);
    var m1 := Then(m, Pop(Rax));
    assert (stack + base)[1..] == stack[1..] + base;
    LoadStep(m1, Rax, Rax);
    var m2 := Then(m1, load);
    if m2.Running? {
      PushHolds(m2, Rax, stack[1..], base, m.state.mem);
    } else {
      StoppedStays([Push(Rax)], m2);
      ExecAll1(Push(Rax), m2);
    }
  }

  lemma StoreStep(m: Machine, b: Reg, r: Reg)
    requires m.Running?
    ensures var s := m.state;
            match WriteWord(s.mem, s.regs.Get(b), s.regs.Get(r))
            case Some(mem) => In(Then(m, MovToMem(b, r)), s.(mem := mem))
            case None => Then(m, MovToMem(b, r)) == Faulted
  {
    hide Encode, ReadWord, WriteWord, Wrap, Signed;
  }

  lemma StoreLowered(ins: Instr, m: Machine, stack: seq<Word>, base: seq<Word>)
    requires ins.op.Store? && m.Running? && m.state.stack == stack + base && |stack| >= 2
    ensures var final := ExecAll(Lower(ins), m);
            match WriteWord(m.state.mem, stack[0], stack[1])
            case Some(mem) => Holds(final, stack[2..], base, mem)
            case None => final == Faulted
  {
    hide ExecAll, Then, WriteWord;
    ExecAll3(Pop(Rax), Pop(Rbx), MovToMem(Rax, Rbx), m);
    PopTwo(m);
    StoreStep(Then(Then(m, Pop(Rax)), Pop(Rbx)), Rax, Rbx);
    assert (stack + base)[2..] == stack[2..] + base;
  }

  lemma RetLowered(ins: Instr, m: Machine, stack: seq<Word>, base: seq<Word>)
    requires ins.op.Ret? && m.Running? && m.state.stack == stack + base && |stack| >= 1 && base != []
    ensures var final := ExecAll(Lower(ins), m);
            LeftAt(final, stack[1..] + base, m.state.mem) && final.state.regs.rax == stack[0]
  {
    hide ExecAll, Then;
    ExecAll2(Pop(Rax), RetNear, m);
    PopStep(m, Rax);
    assert (stack + base)[1..] == stack[1..] + base;
    RetStep(Then(m, Pop(Rax)));
  }

  // ---- Whole functions ----

  /** How the machine must stop for IR outcome `out`, with `base` below the evaluation stack. */
  ghost predicate Simulates(out: Outcome, final: Machine, base: seq<Word>)
    requires base != []
  {
    match out
    case Returned(v, rest, mem) => LeftAt(final, rest + base, mem) && final.state.regs.rax == v
    case FellThrough(rest, mem) => LeftAt(final, rest + base, mem)
    case BadAddress => final == Faulted
    case Underflow | CallsOut => true
  }

  /** Control has left through a `ret` executed on the non-empty stack `stack`. */
  predicate LeftAt(final: Machine, stack: seq<Word>, mem: Memory)
    requires stack != []
  {
    final.Exited? && final.target == stack[0] && final.state.stack == stack[1..] && final.state.mem == mem
  }

  /** Compiled code, run as a list of machine instructions, does what the IR does. */
  lemma {:induction false} ExecCompiled(code: seq<Instr>, m: Machine, stack: seq<Word>, base: seq<Word>)
    requires CallFree(code) && base != [] && m.Running? && m.state.stack == stack + base
    ensures Simulates(Eval(code, stack, m.state.mem), ExecAll(CompileFunction(code), m), base)
    decreases |code|
  {
    hide Lower, Then, ReadWord, WriteWord, ExecAll;
    if code == [] {
      assert CompileFunction(code) == [RetNear];
      ExecAll1(RetNear, m);
      RetStep(m);
    } else if |stack| >= Pops(code[0].op) {
      var head, rest := code[0], CompileFunction(code[1..]);
      assert CompileFunction(code) == Lower(head) + rest;
      ExecAllConcat(Lower(head), rest, m);
      var m' := ExecAll(Lower(head), m);
      match head.op
      case Const =>
        ConstLowered(head, m, stack, base);
        ExecCompiled(code[1..], m', [Wrap(head.arg)] + stack, base);
      case Add | Sub | Mul =>
        ArithmeticLowered(head, m, stack, base);
        ExecCompiled(code[1..], m', [Combine(head.op, stack[0], stack[1])] + stack[2..], base);
      case Load =>
        LoadLowered(head, m, stack, base);
        var w := ReadWord(m.state.mem, stack[0]);
        if w.Some? {
          ExecCompiled(code[1..], m', [w.value] + stack[1..], base);
        } else {
          StoppedStays(rest, m');
        }
      case Store =>
        StoreLowered(head, m, stack, base);
        var w := WriteWord(m.state.mem, stack[0], stack[1]);
        if w.Some? {
          ExecCompiled(code[1..], m', stack[2..], base);
        } else {
          StoppedStays(rest, m');
        }
      case Ret =>
        RetLowered(head, m, stack, base);
        StoppedStays(rest, m');
    }
  }

  lemma {:induction false} StoppedStays(insns: seq<Insn>, m: Machine)
    requires !m.Running?
    ensures ExecAll(insns, m) == m
    decreases |insns|
  {
    if insns != [] {
      StoppedStays(insns[1..], m);
    }
  }

  /** The defensive `ret` makes every compiled function stop. */
  lemma FinalRetStops(code: seq<Instr>, m: Machine)
    requires CallFree(code)
    ensures !ExecAll(CompileFunction(code), m).Running?
  {
    hide ExecAll, LittleEndian;
    ExecAllConcat(LowerAll(code), [RetNear], m);
    ExecAll1(RetNear, ExecAll(LowerAll(code), m));
  }

  // ---- Main results ----

  function BytesOf(code: seq<Instr>): seq<Byte>
    requires CallFree(code)
  {
    EncodeAll(CompileFunction(code))
  }

  /** The machine about to run a function at offset `ip`: the return address is on top of the caller's stack. */
  function Entry(ip: nat, regs: Regs, ret: Word, caller: seq<Word>, mem: Memory): Machine {
    Running(ip, State(regs, [ret] + caller, mem))
  }

  /** Control is back at the return address and the stack is the caller's again. */
  predicate BackInCaller(final: Machine, ret: Word, caller: seq<Word>) {
    final.Exited? && final.target == ret && final.state.stack == caller
  }

  /**
   Compiler correctness: wherever the bytes of a function are placed, and whatever surrounds them, running
   them stops, and stops as the IR evaluation says.
   */
  lemma CompilerCorrect(pre: seq<Byte>, code: seq<Instr>, post: seq<Byte>,
                        regs: Regs, ret: Word, caller: seq<Word>, mem: Memory)
    returns (final: Machine)
    requires CallFree(code)
    ensures Halts(pre + BytesOf(code) + post, Entry(|pre|, regs, ret, caller, mem), final)
    ensures Simulates(Eval(code, [], mem), final, [ret] + caller)
  {
    hide Eval, Simulates, ExecAll, Run, CompileFunction, EncodeAll;
    var start := Entry(|pre|, regs, ret, caller, mem);
    var insns := CompileFunction(code);
    final := ExecAll(insns, start);
    RunEncoded(pre, insns, post, start);
    FinalRetStops(code, start);
    assert [] + ([ret] + caller) == [ret] + caller;
    ExecCompiled(code, start, [], [ret] + caller);
  }

  /**
   For code that never pops an empty evaluation stack, the compiled function comes back to its caller with
   the caller's stack intact exactly when no bad address is touched and the static depth is one at the first
   Ret, or zero if there is none. In the first case rax and data memory are the IR's.
   */
  lemma ReturnsToCallerIff(pre: seq<Byte>, code: seq<Instr>, post: seq<Byte>,
                           regs: Regs, ret: Word, caller: seq<Word>, mem: Memory, final: Machine)
    requires CallFree(code) && !ShapeOf(code, 0).Underflows?
    requires Halts(pre + BytesOf(code) + post, Entry(|pre|, regs, ret, caller, mem), final)
    ensures BackInCaller(final, ret, caller) <==>
            !Eval(code, [], mem).BadAddress?
            && (ShapeOf(code, 0) == ReturnsWith(1) || ShapeOf(code, 0) == EndsWith(0))
    ensures BackInCaller(final, ret, caller) && ShapeOf(code, 0).ReturnsWith? ==>
              var out := Eval(code, [], mem);
              out.Returned? && final.state.regs.rax == out.value && final.state.mem == out.mem
  {
    hide ExecAll, Exec, Encode, Decode, EncodeAll, LowerAll, Run;
    var f := CompilerCorrect(pre, code, post, regs, ret, caller, mem);
    HaltsUnique(pre + BytesOf(code) + post, Entry(|pre|, regs, ret, caller, mem), f, final);
    ShapePredicts(code, [], mem);
    CallFreeShape(code, 0);
    var base := [ret] + caller;
    match Eval(code, [], mem)
    case Returned(v, rest, m) =>
      assert rest == [] ==> rest + base == base;
      assert |(rest + base)[1..]| == |rest| + |caller|;
    case FellThrough(rest, m) =>
      assert rest == [] ==> rest + base == base;
      assert |(rest + base)[1..]| == |rest| + |caller|;
    case _ =>
  }

  lemma {:induction false} CallFreeShape(code: seq<Instr>, depth: nat)
    requires CallFree(code)
    ensures !ShapeOf(code, depth).Calls?
    decreases |code|
  {
    if code != [] && depth >= Pops(code[0].op) && !code[0].op.Ret? {
      CallFreeShape(code[1..], depth - Pops(code[0].op) + Pushes(code[0].op));
    }
  }

  /** With two words on the evaluation stack, Ret does not return: the second word becomes the jump target. */
  lemma RetAtDepthTwo(a: Int64, b: Int64, regs: Regs, ret: Word, caller: seq<Word>, mem: Memory)
    returns (final: Machine)
    ensures var code := [Instr(Const, a, ""), Instr(Const, b, ""), Instr(Ret, 0, "")];
            CallFree(code)
            && Eval(code, [], mem) == Returned(Wrap(b), [Wrap(a)], mem)
            && Halts(BytesOf(code), Entry(0, regs, ret, caller, mem), final)
            && final.Exited? && final.target == Wrap(a) && final.state.stack == [ret] + caller
            && !BackInCaller(final, ret, caller)
  {
    var c1, c2, r := Instr(Const, a, ""), Instr(Const, b, ""), Instr(Ret, 0, "");
    var code := [c1, c2, r];
    var stack: seq<Word> := [Wrap(b), Wrap(a)];
    assert code[1..] == [c2, r] && [c2, r][1..] == [r];
    assert [Wrap(b)] + ([Wrap(a)] + []) == stack && stack[1..] == [Wrap(a)];
    assert Eval([r], stack, mem) == Returned(Wrap(b), [Wrap(a)], mem);
    assert Eval([c2, r], [Wrap(a)], mem) == Eval([r], stack, mem);
    assert Eval(code, [], mem) == Returned(Wrap(b), [Wrap(a)], mem);
    final := CompilerCorrect([], code, [], regs, ret, caller, mem);
    assert [] + BytesOf(code) + [] == BytesOf(code);
    assert ([Wrap(a)] + ([ret] + caller))[1..] == [ret] + caller;
    assert |[ret] + caller| != |caller|;
  }
}

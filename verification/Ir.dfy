/** The JIT's stack IR and its evaluator. Evaluation stacks grow at the front. */
module Ir {
  import opened Bytes
  import opened X86

  datatype OpKind = Const | Add | Sub | Mul | Load | Store | Ret | Call

  datatype Instr = Instr(op: OpKind, arg: Int64, callee: string)

  datatype Function = Function(name: string, code: seq<Instr>)

  datatype Module = Module(name: string, functions: seq<Function>)

  predicate CallFree(code: seq<Instr>) {
    forall i | 0 <= i < |code| :: !code[i].op.Call?
  }

  /** What running code from a given stack comes to. */
  datatype Outcome =
    | Returned(value: Word, rest: seq<Word>, mem: Memory)  // a Ret was reached; `rest` lies below its operand
    | FellThrough(rest: seq<Word>, mem: Memory)            // the code ended without a Ret
    | Underflow                                            // an operand was popped from an empty stack
    | BadAddress                                           // a Load or Store touched unmapped memory
    | CallsOut

  /** How many operands an instruction pops, and how many results it pushes. */
  function Pops(op: OpKind): nat {
    match op
    case Const => 0
    case Add | Sub | Mul | Store => 2
    case Load | Ret => 1
    case Call => 0
  }

  function Pushes(op: OpKind): nat {
    match op
    case Const | Add | Sub | Mul | Load => 1
    case Store | Ret | Call => 0
  }

  /** Wrapping arithmetic on the top word `a` and the next word `b`. */
  function Combine(op: OpKind, a: int, b: int): Word
    requires op.Add? || op.Sub? || op.Mul?
  {
    match op case Add => Wrap(a + b) case Sub => Wrap(a - b) case Mul => Wrap(a * b)
  }

  function Eval(code: seq<Instr>, stack: seq<Word>, mem: Memory): Outcome {
    if code == [] then FellThrough(stack, mem)
    else if |stack| < Pops(code[0].op) then Underflow
    else
      var rest := code[1..];
      match code[0].op
      case Const => Eval(rest, [Wrap(code[0].arg)] + stack, mem)
      case Add | Sub | Mul => Eval(rest, [Combine(code[0].op, stack[0], stack[1])] + stack[2..], mem)
      case Load =>
        var w := ReadWord(mem, stack[0]);
        if w.None? then BadAddress else Eval(rest, [w.value] + stack[1..], mem)
      case Store =>
        var m := WriteWord(mem, stack[0], stack[1]);
        if m.None? then BadAddress else Eval(rest, stack[2..], m.value)
      case Ret => Returned(stack[0], stack[1..], mem)
      case Call => CallsOut
  }

  /** Stack depth is static in straight-line code: where the code stops and with how many words left. */
  datatype Shape = ReturnsWith(depth: nat) | EndsWith(depth: nat) | Underflows | Calls

  function ShapeOf(code: seq<Instr>, depth: nat): Shape {
    if code == [] then EndsWith(depth)
    else if depth < Pops(code[0].op) then Underflows
    else if code[0].op.Call? then Calls
    else if code[0].op.Ret? then ReturnsWith(depth)
    else ShapeOf(code[1..], depth - Pops(code[0].op) + Pushes(code[0].op))
  }

  predicate Predicted(shape: Shape, out: Outcome) {
    match shape
    case ReturnsWith(d) => out.Returned? && d == |out.rest| + 1
    case EndsWith(d) => out.FellThrough? && d == |out.rest|
    case Underflows => out.Underflow?
    case Calls => out.CallsOut?
  }

  /** An instruction at which evaluation stops. */
  predicate Stops(code: seq<Instr>, depth: nat) {
    code == [] || depth < Pops(code[0].op) || code[0].op.Ret? || code[0].op.Call?
  }

  lemma StopPredicts(code: seq<Instr>, stack: seq<Word>, mem: Memory)
    requires Stops(code, |stack|)
    ensures Predicted(ShapeOf(code, |stack|), Eval(code, stack, mem))
  {
  }

  /** Apart from bad addresses, the static shape predicts how evaluation ends. */
  lemma {:induction false} ShapePredicts(code: seq<Instr>, stack: seq<Word>, mem: Memory)
    ensures var out := Eval(code, stack, mem);
            out.BadAddress? || Predicted(ShapeOf(code, |stack|), out)
    decreases |code|
  {
    hide Combine, Wrap, ReadWord, WriteWord, Predicted;
    if Stops(code, |stack|) {
      StopPredicts(code, stack, mem);
    } else {
      var rest := code[1..];
      match code[0].op
      case Const => ShapePredicts(rest, [Wrap(code[0].arg)] + stack, mem);
      case Add | Sub | Mul => ShapePredicts(rest, [Combine(code[0].op, stack[0], stack[1])] + stack[2..], mem);
      case Load =>
        var w := ReadWord(mem, stack[0]);
        if w.Some? { ShapePredicts(rest, [w.value] + stack[1..], mem); }
      case Store =>
        var m := WriteWord(mem, stack[0], stack[1]);
        if m.Some? { ShapePredicts(rest, stack[2..], m.value); }
    }
  }

  function Constant(v: Int64): Instr {
    Instr(Const, v, "")
  }

  function Plain(op: OpKind): Instr {
    Instr(op, 0, "")
  }

  lemma EvalNext(i: Instr, rest: seq<Instr>, stack: seq<Word>, mem: Memory)
    ensures i.op.Const? ==> Eval([i] + rest, stack, mem) == Eval(rest, [Wrap(i.arg)] + stack, mem)
    ensures i.op.Ret? && stack != [] ==> Eval([i] + rest, stack, mem) == Returned(stack[0], stack[1..], mem)
  {
    assert ([i] + rest)[1..] == rest;
  }

  lemma EvalArithmetic(op: OpKind, rest: seq<Instr>, c: Word, d: Word, stack: seq<Word>, mem: Memory)
    requires op.Add? || op.Sub? || op.Mul?
    ensures var a: int := c;
            var b: int := d;
            Eval([Plain(op)] + rest, [c] + ([d] + stack), mem)
            == Eval(rest, [if op.Add? then Wrap(a + b) else if op.Sub? then Wrap(a - b) else Wrap(a * b)] + stack, mem)
  {
    assert ([Plain(op)] + rest)[1..] == rest;
    assert ([c] + ([d] + stack))[2..] == stack;
  }

  /** The three operations on two constants: the one pushed last is the left operand. */
  lemma ArithmeticAnswers(op: OpKind, x: Int64, y: Int64, stack: seq<Word>, mem: Memory)
    requires op.Add? || op.Sub? || op.Mul?
    ensures var a: int := Wrap(y);
            var b: int := Wrap(x);
            Eval([Constant(x)] + ([Constant(y)] + ([Plain(op)] + ([Plain(Ret)] + []))), stack, mem)
            == Returned(if op.Add? then Wrap(a + b) else if op.Sub? then Wrap(a - b) else Wrap(a * b), stack, mem)
  {
    hide Eval, Wrap;
    var end := [Plain(Ret)] + [];
    var a: int := Wrap(y);
    var b: int := Wrap(x);
    var v := if op.Add? then Wrap(a + b) else if op.Sub? then Wrap(a - b) else Wrap(a * b);
    EvalNext(Constant(x), [Constant(y)] + ([Plain(op)] + end), stack, mem);
    EvalNext(Constant(y), [Plain(op)] + end, [b] + stack, mem);
    EvalArithmetic(op, end, a, b, stack, mem);
    EvalNext(Plain(Ret), [], [v] + stack, mem);
    assert ([v] + stack)[1..] == stack;
  }

  lemma EvalMemory(rest: seq<Instr>, a: Word, v: Word, stack: seq<Word>, mem: Memory)
    ensures Mapped(mem, a, 8) ==>
              WriteWord(mem, a, v).Some?
              && Eval([Plain(Store)] + rest, [a] + ([v] + stack), mem) == Eval(rest, stack, WriteWord(mem, a, v).value)
    ensures Mapped(mem, a, 8) ==>
              ReadWord(mem, a).Some?
              && Eval([Plain(Load)] + rest, [a] + stack, mem) == Eval(rest, [ReadWord(mem, a).value] + stack, mem)
    ensures !Mapped(mem, a, 8) ==>
              Eval([Plain(Store)] + rest, [a] + ([v] + stack), mem) == BadAddress
              && Eval([Plain(Load)] + rest, [a] + stack, mem) == BadAddress
  {
    hide Mapped, ReadWord, WriteWord;
    AccessIff(mem, a, v);
    assert ([Plain(Store)] + rest)[1..] == rest && ([Plain(Load)] + rest)[1..] == rest;
    assert ([a] + ([v] + stack))[2..] == stack && ([a] + stack)[1..] == stack;
  }

  /** A word stored and loaded again comes back, if its eight addresses are mapped; else evaluation stops there. */
  lemma StoreThenLoad(x: Int64, y: Int64, stack: seq<Word>, mem: Memory)
    ensures var (v, a) := (Wrap(x), Wrap(y));
            var load := [Constant(y)] + ([Plain(Load)] + ([Plain(Ret)] + []));
            var out := Eval([Constant(x)] + ([Constant(y)] + ([Plain(Store)] + load)), stack, mem);
            if Mapped(mem, a, 8) then out.Returned? && out.value == v && out.rest == stack else out == BadAddress
  {
    hide Eval, Wrap, Mapped, ReadWord, WriteWord;
    var (v, a) := (Wrap(x), Wrap(y));
    var end := [Plain(Ret)] + [];
    var load := [Constant(y)] + ([Plain(Load)] + end);
    EvalNext(Constant(x), [Constant(y)] + ([Plain(Store)] + load), stack, mem);
    EvalNext(Constant(y), [Plain(Store)] + load, [v] + stack, mem);
    EvalMemory(load, a, v, stack, mem);
    if Mapped(mem, a, 8) {
      var m := WriteWord(mem, a, v).value;
      ReadAfterWrite(mem, a, v);
      AccessIff(m, a, v);
      EvalNext(Constant(y), [Plain(Load)] + end, stack, m);
      EvalMemory(end, a, v, stack, m);
      EvalNext(Plain(Ret), [], [v] + stack, m);
      assert ([v] + stack)[1..] == stack;
    }
  }
}

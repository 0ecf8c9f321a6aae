/** Module-level code generation: concatenation of functions, rollback, and which function runs. */
module Engine {
  import opened Wrappers
  import opened Bytes
  import opened X86
  import opened Ir
  import opened Compiler
  import opened Emitter

  datatype Target = Host | X86_64 | AArch64 | RiscV64

  class CodegenResult {
    var target: Target
    const code: CodeBuffer

    constructor ()
      ensures target == Host && fresh(code) && code.bytes == []
    {
      target := Host;
      code := new CodeBuffer();
    }
  }

  predicate AllCallFree(fns: seq<Function>) {
    forall i | 0 <= i < |fns| :: CallFree(fns[i].code)
  }

  /** The longest prefix of functions without a Call. */
  function CallFreePrefix(fns: seq<Function>): (p: seq<Function>)
    ensures p <= fns && AllCallFree(p)
    ensures |p| < |fns| ==> !CallFree(fns[|p|].code)
  {
    if fns == [] || !CallFree(fns[0].code) then []
    else [fns[0]] + CallFreePrefix(fns[1..])
  }

  function ModuleCode(fns: seq<Function>): seq<Insn>
    requires AllCallFree(fns)
  {
    if fns == [] then [] else CompileFunction(fns[0].code) + ModuleCode(fns[1..])
  }

  lemma {:induction false} ModuleCodeSnoc(fns: seq<Function>, fn: Function)
    requires AllCallFree(fns) && CallFree(fn.code)
    ensures AllCallFree(fns + [fn])
    ensures EncodeAll(ModuleCode(fns + [fn])) == EncodeAll(ModuleCode(fns)) + BytesOf(fn.code)
  {
    hide EncodeAll, CompileFunction;
    if fns == [] {
      assert fns + [fn] == [fn] && [fn][1..] == [];
      assert ModuleCode([fn]) == CompileFunction(fn.code) + [] == CompileFunction(fn.code);
      EmptyCode();
    } else {
      var head := CompileFunction(fns[0].code);
      assert (fns + [fn])[1..] == fns[1..] + [fn] && (fns + [fn])[0] == fns[0];
      ModuleCodeSnoc(fns[1..], fn);
      EncodeAllConcat(head, ModuleCode(fns[1..]));
      EncodeAllConcat(head, ModuleCode(fns[1..] + [fn]));
    }
  }

  lemma {:induction false} PrefixStopsAt(fns: seq<Function>, i: nat)
    requires i <= |fns| && AllCallFree(fns[..i]) && (i < |fns| ==> !CallFree(fns[i].code))
    ensures CallFreePrefix(fns) == fns[..i]
  {
    if i > 0 {
      assert fns[..i][0] == fns[0] && fns[1..][..i - 1] == fns[..i][1..];
      PrefixStopsAt(fns[1..], i - 1);
    }
  }

  /** Every function has code, if only its final ret. */
  lemma ModuleCodeEmptyIff(fns: seq<Function>)
    requires AllCallFree(fns)
    ensures EncodeAll(ModuleCode(fns)) == [] <==> fns == []
  {
    hide EncodeAll, CompileFunction;
    if fns == [] {
      EmptyCode();
    } else {
      FunctionBytes(fns[0].code);
      EncodeAllConcat(CompileFunction(fns[0].code), ModuleCode(fns[1..]));
    }
  }

  /** Appends the functions of `m` to `r`, dropping a function that could not be emitted whole. */
  method EmitModuleX86_64(m: Ir.Module, r: CodegenResult) returns (ok: bool)
    modifies r, r.code
    ensures r.target == X86_64
    ensures r.code.bytes == old(r.code.bytes) + EncodeAll(ModuleCode(CallFreePrefix(m.functions)))
    ensures ok == (AllCallFree(m.functions) && r.code.bytes != [])
    ensures old(r.code.bytes) == [] ==> (ok <==> m.functions != [] && AllCallFree(m.functions))
  {
    hide EncodeAll, LowerAll, BytesOf;
    r.target := X86_64;
    EmptyCode();
    var fns := m.functions;
    for i := 0 to |fns|
      invariant r.target == X86_64
      invariant AllCallFree(fns[..i])
      invariant r.code.bytes == old(r.code.bytes) + EncodeAll(ModuleCode(fns[..i]))
    {
      var before := |r.code.bytes|;
      var emitted := r.code.EmitFunction(fns[i]);
      if !emitted {
        r.code.bytes := r.code.bytes[..before];
        PrefixStopsAt(fns, i);
        return false;
      }
      assert fns[..i + 1] == fns[..i] + [fns[i]];
      ModuleCodeSnoc(fns[..i], fns[i]);
    }
    assert fns[..|fns|] == fns;
    PrefixStopsAt(fns, |fns|);
    ModuleCodeEmptyIff(fns);
    return r.code.bytes != [];
  }

  method Codegen(m: Ir.Module, t: Target) returns (r: CodegenResult)
    ensures fresh(r) && fresh(r.code) && r.target == t
    ensures r.code.bytes == if t == X86_64 then EncodeAll(ModuleCode(CallFreePrefix(m.functions))) else []
  {
    r := new CodegenResult();
    if t == X86_64 {
      var ok := EmitModuleX86_64(m, r);
      if ok {
        return;
      }
    }
    r.target := t;
  }

  // ---- What the module's bytes are ----

  /** The bytes of a Call-free prefix, as Codegen produces them. */
  function ModuleBytes(m: Ir.Module): seq<Byte> {
    EncodeAll(ModuleCode(CallFreePrefix(m.functions)))
  }

  /** The output never holds part of a function: it decodes to whole compiled functions. */
  lemma ModuleDisassembles(m: Ir.Module)
    ensures Disassemble(ModuleBytes(m)) == Some(ModuleCode(CallFreePrefix(m.functions)))
  {
    DisassembleEncodeAll(ModuleCode(CallFreePrefix(m.functions)));
  }

  lemma FirstFunction(m: Ir.Module) returns (rest: seq<Byte>)
    requires m.functions != [] && CallFree(m.functions[0].code)
    ensures ModuleBytes(m) == BytesOf(m.functions[0].code) + rest
  {
    hide EncodeAll;
    var p := CallFreePrefix(m.functions);
    EncodeAllConcat(CompileFunction(p[0].code), ModuleCode(p[1..]));
    rest := EncodeAll(ModuleCode(p[1..]));
  }

  /** Running a module's bytes from the start runs its first function, whatever the others are. */
  lemma ModuleRunsFirst(m: Ir.Module, regs: Regs, ret: Word, caller: seq<Word>, mem: Memory)
    returns (final: Machine)
    requires m.functions != [] && CallFree(m.functions[0].code)
    ensures Halts(ModuleBytes(m), Entry(0, regs, ret, caller, mem), final)
    ensures Simulates(Eval(m.functions[0].code, [], mem), final, [ret] + caller)
  {
    hide EncodeAll, Run, CallFreePrefix, ModuleCode, CompileFunction, Eval;
    var rest := FirstFunction(m);
    final := CompilerCorrect([], m.functions[0].code, rest, regs, ret, caller, mem);
    assert [] + BytesOf(m.functions[0].code) + rest == ModuleBytes(m);
  }

  /**
   A failed emission is meant to leave no bytes behind. It does so exactly when there is no function or the
   first one contains a Call; otherwise the functions before the failing one stay in the buffer.
   */
  lemma FailureLeavesNoBytesIff(m: Ir.Module)
    requires !AllCallFree(m.functions) || m.functions == []
    ensures ModuleBytes(m) == [] <==> m.functions == [] || !CallFree(m.functions[0].code)
  {
    EmptyCode();
    if m.functions != [] && CallFree(m.functions[0].code) {
      var rest := FirstFunction(m);
      FunctionBytes(m.functions[0].code);
    }
  }

  /** A module whose second function calls out: emission fails, yet its bytes are the first function's. */
  lemma FailureKeepsFirst()
    ensures var ret, call := Instr(Ret, 0, ""), Instr(Call, 0, "puts");
            var m := Ir.Module("m", [Function("f", [ret]), Function("g", [call])]);
            !AllCallFree(m.functions) && ModuleBytes(m) != []
  {
    var ret, call := Instr(Ret, 0, ""), Instr(Call, 0, "puts");
    var m := Ir.Module("m", [Function("f", [ret]), Function("g", [call])]);
    assert m.functions[1].code[0].op.Call?;
    FailureLeavesNoBytesIff(m);
  }
}

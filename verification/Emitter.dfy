/** The emitters of the x86-64 backend: each appends its bytes to a growing buffer. */
module Emitter {
  import opened Bytes
  import opened X86
  import opened Ir
  import opened Compiler

  /** The Call-free instructions before the first Call. */
  function BeforeCall(code: seq<Instr>): (p: seq<Instr>)
    ensures p <= code && CallFree(p)
    ensures CallFree(code) ==> p == code
    ensures !CallFree(code) ==> |p| < |code| && code[|p|].op.Call?
  {
    if code == [] || code[0].op.Call? then []
    else
      var rest := BeforeCall(code[1..]);
      assert CallFree(code) ==> CallFree(code[1..]);
      [code[0]] + rest
  }

  class CodeBuffer {
    var bytes: seq<Byte>

    constructor ()
      ensures bytes == []
    {
      bytes := [];
    }

    method EmitByte(b: Byte)
      modifies this
      ensures bytes == old(bytes) + [b]
    {
      bytes := bytes + [b];
    }

    method EmitU64Le(v: Int64)
      modifies this
      ensures bytes == old(bytes) + LittleEndian(Wrap(v), 8)
    {
      hide LittleEndian, Wrap;
      var bits: nat := Wrap(v);
      for i := 0 to 8
        invariant bytes + LittleEndian(bits, 8 - i) == old(bytes) + LittleEndian(Wrap(v), 8)
      {
        LowByteFirst(bytes, bits, 8 - i);
        EmitByte(bits % 0x100);
        bits := bits / 0x100;
      }
      NoBytesLeft(bytes, bits);
    }

    method EmitMovRegImm64(r: Reg, imm: Int64)
      modifies this
      ensures bytes == old(bytes) + Encode(MovImm64(r, Wrap(imm)))
    {
      hide LittleEndian;
      Appended(bytes, 0x48, 0xB8 + Code(r), LittleEndian(Wrap(imm), 8));
      EmitByte(0x48);
      EmitByte(0xB8 + Code(r));
      EmitU64Le(imm);
    }

    method EmitPushReg(r: Reg)
      modifies this
      ensures bytes == old(bytes) + Encode(Push(r))
    {
      hide LittleEndian;
      EmitByte(0x50 + Code(r));
    }

    method EmitPopReg(r: Reg)
      modifies this
      ensures bytes == old(bytes) + Encode(Pop(r))
    {
      hide LittleEndian;
      EmitByte(0x58 + Code(r));
    }

    method EmitAddRaxRbx()
      modifies this
      ensures bytes == old(bytes) + Encode(AddRR(Rax, Rbx))
    {
      hide LittleEndian;
      EmitByte(0x48);
      EmitByte(0x01);
      EmitByte(0xD8);
    }

    method EmitSubRaxRbx()
      modifies this
      ensures bytes == old(bytes) + Encode(SubRR(Rax, Rbx))
    {
      hide LittleEndian;
      EmitByte(0x48);
      EmitByte(0x29);
      EmitByte(0xD8);
    }

    method EmitImulRaxRbx()
      modifies this
      ensures bytes == old(bytes) + Encode(ImulRR(Rax, Rbx))
    {
      hide LittleEndian;
      EmitByte(0x48);
      EmitByte(0x0F);
      EmitByte(0xAF);
      EmitByte(0xC3);
    }

    method EmitStoreRaxRbx()
      modifies this
      ensures bytes == old(bytes) + Encode(MovToMem(Rax, Rbx))
    {
      hide LittleEndian;
      EmitByte(0x48);
      EmitByte(0x89);
      EmitByte(0x18);
    }

    method EmitLoadRax()
      modifies this
      ensures bytes == old(bytes) + Encode(MovFromMem(Rax, Rax))
    {
      hide Encode;
      LoadBytes(Rax, Rax);
      EmitByte(0x48);
      EmitByte(0x8B);
      EmitByte(0x00);
    }

    method EmitRet()
      modifies this
      ensures bytes == old(bytes) + Encode(RetNear)
    {
      hide LittleEndian;
      EmitByte(0xC3);
    }

    method EmitConst(v: Int64)
      modifies this
      ensures bytes == old(bytes) + EncodeAll(Lower(Instr(Const, v, "")))
    {
      if v >= -128 && v <= 127 {
        EmitByte(0x6A);
        EmitByte(v % 0x100);
        EncodeList1(PushImm8(v));
      } else {
        EmitMovRegImm64(Rax, v);
        EmitPushReg(Rax);
        AppendList2(old(bytes), MovImm64(Rax, Wrap(v)), Push(Rax));
      }
    }

    method EmitInstr(ins: Instr) returns (ok: bool)
      modifies this
      ensures ok == !ins.op.Call?
      ensures bytes == old(bytes) + if ok then EncodeAll(Lower(ins)) else []
    {
      hide Encode, EncodeAll, Lower;
      ok := true;
      if !ins.op.Call? {
        LoweredBytes(bytes, ins);
      }
      match ins.op
      case Const =>
        EmitConst(ins.arg);
      case Add =>
        EmitPopReg(Rax);
        EmitPopReg(Rbx);
        EmitAddRaxRbx();
        EmitPushReg(Rax);
      case Sub =>
        EmitPopReg(Rax);
        EmitPopReg(Rbx);
        EmitSubRaxRbx();
        EmitPushReg(Rax);
      case Mul =>
        EmitPopReg(Rax);
        EmitPopReg(Rbx);
        EmitImulRaxRbx();
        EmitPushReg(Rax);
      case Load =>
        EmitPopReg(Rax);
        EmitLoadRax();
        EmitPushReg(Rax);
      case Store =>
        EmitPopReg(Rax);
        EmitPopReg(Rbx);
        EmitStoreRaxRbx();
      case Ret =>
        EmitPopReg(Rax);
        EmitRet();
      case Call =>
        ok := false;
    }

    /** Emits a function, or reports a Call after appending what precedes it. */
    method EmitFunction(fn: Function) returns (ok: bool)
      modifies this
      ensures ok == CallFree(fn.code)
      ensures bytes == old(bytes) + if ok then BytesOf(fn.code) else EncodeAll(LowerAll(BeforeCall(fn.code)))
    {
      hide Encode, EncodeAll, Lower, LowerAll, BytesOf;
      EmptyCode();
      for i := 0 to |fn.code|
        invariant CallFree(fn.code[..i])
        invariant bytes == old(bytes) + EncodeAll(LowerAll(fn.code[..i]))
      {
        var emitted := EmitInstr(fn.code[i]);
        if !emitted {
          StopsAtCall(fn.code, i);
          return false;
        }
        assert fn.code[..i + 1] == fn.code[..i] + [fn.code[i]];
        LowerAllSnoc(fn.code[..i], fn.code[i]);
      }
      assert fn.code[..|fn.code|] == fn.code;
      FunctionBytes(fn.code);
      EmitRet();
      return true;
    }
  }

  lemma LowByteFirst(was: seq<Byte>, bits: nat, n: nat)
    requires n > 0
    ensures was + LittleEndian(bits, n) == was + [bits % 0x100] + LittleEndian(bits / 0x100, n - 1)
  {
  }

  lemma NoBytesLeft(was: seq<Byte>, bits: nat)
    ensures was + LittleEndian(bits, 0) == was
  {
  }

  lemma Appended(was: seq<Byte>, a: Byte, b: Byte, rest: seq<Byte>)
    ensures was + [a] + [b] + rest == was + ([a, b] + rest)
  {
  }

  lemma LoadBytes(d: Reg, b: Reg)
    ensures Encode(MovFromMem(d, b)) == [0x48, 0x8B, ModRM(0, Code(d), Code(b))]
  {
  }

  lemma EmptyCode()
    ensures LowerAll([]) == [] && EncodeAll([]) == []
  {
  }

  lemma EncodeList1(a: Insn)
    ensures EncodeAll([a]) == Encode(a)
  {
    assert [a][1..] == [];
  }

  lemma AppendList2(was: seq<Byte>, a: Insn, b: Insn)
    ensures was + EncodeAll([a, b]) == was + Encode(a) + Encode(b)
  {
    hide Encode, EncodeAll;
    EncodeAllConcat([a], [b]);
    EncodeList1(a);
    EncodeList1(b);
    assert [a] + [b] == [a, b];
  }

  lemma AppendList3(was: seq<Byte>, a: Insn, b: Insn, c: Insn)
    ensures was + EncodeAll([a, b, c]) == was + Encode(a) + Encode(b) + Encode(c)
  {
    hide Encode, EncodeAll;
    EncodeAllConcat([a, b], [c]);
    AppendList2(was, a, b);
    EncodeList1(c);
    assert [a, b] + [c] == [a, b, c];
  }

  lemma AppendList4(was: seq<Byte>, a: Insn, b: Insn, c: Insn, d: Insn)
    ensures was + EncodeAll([a, b, c, d]) == was + Encode(a) + Encode(b) + Encode(c) + Encode(d)
  {
    hide Encode, EncodeAll;
    EncodeAllConcat([a, b, c], [d]);
    AppendList3(was, a, b, c);
    EncodeList1(d);
    assert [a, b, c] + [d] == [a, b, c, d];
  }

  /** Appending an instruction's code to `was`, one machine instruction at a time. */
  lemma LoweredBytes(was: seq<Byte>, ins: Instr)
    requires !ins.op.Call?
    ensures var all := was + EncodeAll(Lower(ins));
            match ins.op
            case Const => all == was + EncodeAll(Lower(Instr(Const, ins.arg, "")))
            case Add | Sub | Mul =>
              all == was + Encode(Pop(Rax)) + Encode(Pop(Rbx)) + Encode(ArithmeticInsn(ins.op)) + Encode(Push(Rax))
            case Load => all == was + Encode(Pop(Rax)) + Encode(MovFromMem(Rax, Rax)) + Encode(Push(Rax))
            case Store => all == was + Encode(Pop(Rax)) + Encode(Pop(Rbx)) + Encode(MovToMem(Rax, Rbx))
            case Ret => all == was + Encode(Pop(Rax)) + Encode(RetNear)
  {
    hide Encode, EncodeAll;
    match ins.op
    case Const =>
    case Add | Sub | Mul => AppendList4(was, Pop(Rax), Pop(Rbx), ArithmeticInsn(ins.op), Push(Rax));
    case Load => AppendList3(was, Pop(Rax), MovFromMem(Rax, Rax), Push(Rax));
    case Store => AppendList3(was, Pop(Rax), Pop(Rbx), MovToMem(Rax, Rbx));
    case Ret => AppendList2(was, Pop(Rax), RetNear);
  }

  lemma {:induction false} LowerAllConcat(a: seq<Instr>, b: seq<Instr>)
    requires CallFree(a) && CallFree(b)
    ensures CallFree(a + b) && LowerAll(a + b) == LowerAll(a) + LowerAll(b)
  {
    hide Lower;
    if a == [] {
      assert a + b == b;
    } else {
      var head := Lower(a[0]);
      LowerAllConcat(a[1..], b);
      assert (a + b)[1..] == a[1..] + b && (a + b)[0] == a[0];
      assert LowerAll(a + b) == head + (LowerAll(a[1..]) + LowerAll(b));
    }
  }

  lemma LowerAllSnoc(code: seq<Instr>, ins: Instr)
    requires CallFree(code) && !ins.op.Call?
    ensures CallFree(code + [ins])
    ensures EncodeAll(LowerAll(code + [ins])) == EncodeAll(LowerAll(code)) + EncodeAll(Lower(ins))
  {
    hide Lower, Encode;
    LowerAllConcat(code, [ins]);
    assert LowerAll([ins]) == Lower(ins) + [] == Lower(ins);
    EncodeAllConcat(LowerAll(code), LowerAll([ins]));
  }

  lemma FunctionBytes(code: seq<Instr>)
    requires CallFree(code)
    ensures BytesOf(code) == EncodeAll(LowerAll(code)) + Encode(RetNear)
  {
    hide Lower, Encode, EncodeAll, LowerAll;
    EncodeAllConcat(LowerAll(code), [RetNear]);
    EncodeList1(RetNear);
  }

  lemma {:induction false} StopsAtCall(code: seq<Instr>, i: nat)
    requires i < |code| && code[i].op.Call? && CallFree(code[..i])
    ensures BeforeCall(code) == code[..i] && !CallFree(code)
  {
    if i > 0 {
      assert code[..i][0] == code[0];
      assert code[1..][..i - 1] == code[..i][1..];
      StopsAtCall(code[1..], i - 1);
    }
  }
}

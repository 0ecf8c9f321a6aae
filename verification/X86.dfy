/**
 The ten x86-64 instruction forms the code generator emits: their encodings
 (Intel SDM volume 2, sections 2.1.5 for ModR/M and 2.2.1 for REX), a decoder,
 and a step function. Data memory is separate from the machine stack, and the
 stack grows at the front of a sequence.
 */
module X86 {
  import opened Wrappers
  import opened Bytes

  datatype Reg = Rax | Rcx | Rdx | Rbx

  datatype Insn =
    | MovImm64(dst: Reg, imm: Word)
    | PushImm8(small: Int8)
    | Push(src: Reg)
    | Pop(dst: Reg)
    | AddRR(dst: Reg, src: Reg)
    | SubRR(dst: Reg, src: Reg)
    | ImulRR(dst: Reg, src: Reg)
    | MovToMem(base: Reg, src: Reg)
    | MovFromMem(dst: Reg, base: Reg)
    | RetNear

  // ---- Encoding ----

  /** The three-bit register number. */
  function Code(r: Reg): (c: Byte)
    ensures c < 4
  {
    match r case Rax => 0 case Rcx => 1 case Rdx => 2 case Rbx => 3
  }

  function ModRM(mod: Byte, reg: Byte, rm: Byte): Byte
    requires mod < 4 && reg < 8 && rm < 8
  {
    0x40 * mod + 8 * reg + rm
  }

  function Encode(i: Insn): seq<Byte> {
    match i
    case MovImm64(r, imm) => [0x48, 0xB8 + Code(r)] + LittleEndian(imm, 8)
    case PushImm8(v) => [0x6A, if v < 0 then v + 0x100 else v]
    case Push(r) => [0x50 + Code(r)]
    case Pop(r) => [0x58 + Code(r)]
    case AddRR(d, s) => [0x48, 0x01, ModRM(3, Code(s), Code(d))]
    case SubRR(d, s) => [0x48, 0x29, ModRM(3, Code(s), Code(d))]
    case ImulRR(d, s) => [0x48, 0x0F, 0xAF, ModRM(3, Code(d), Code(s))]
    case MovToMem(b, s) => [0x48, 0x89, ModRM(0, Code(s), Code(b))]
    case MovFromMem(d, b) => [0x48, 0x8B, ModRM(0, Code(d), Code(b))]
    case RetNear => [0xC3]
  }

  function EncodeAll(insns: seq<Insn>): seq<Byte> {
    if insns == [] then [] else Encode(insns[0]) + EncodeAll(insns[1..])
  }

  // The bytes of the forms that the generator uses, as the manual's tables have them.

  lemma ArithmeticBytes()
    ensures Encode(AddRR(Rax, Rbx)) == [0x48, 0x01, 0xD8]
    ensures Encode(SubRR(Rax, Rbx)) == [0x48, 0x29, 0xD8]
    ensures Encode(ImulRR(Rax, Rbx)) == [0x48, 0x0F, 0xAF, 0xC3]
  {
  }

  lemma StoreForm()
    ensures Encode(MovToMem(Rax, Rbx)) == [0x48, 0x89, 0x18]
  {
  }

  lemma LoadForm()
    ensures Encode(MovFromMem(Rax, Rax)) == [0x48, 0x8B, 0x00]
  {
  }

  lemma ImmediateBytes(imm: Word, i: nat)
    requires 2 <= i < 10
    ensures var bs := Encode(MovImm64(Rax, imm));
            |bs| == 10 && bs[0] == 0x48 && bs[1] == 0xB8 && bs[i] == imm / Power256(i - 2) % 0x100
  {
    hide LittleEndian;
    LittleEndianAt(imm, 8, i - 2);
  }

  lemma StackBytes(v: Int8)
    ensures Encode(Push(Rax)) == [0x50] && Encode(Pop(Rax)) == [0x58] && Encode(Pop(Rbx)) == [0x5B]
    ensures Encode(RetNear) == [0xC3] && Encode(PushImm8(v)) == [0x6A, v % 0x100]
  {
  }

  // ---- Decoding ----

  function RegOf(c: int): Option<Reg> {
    if c == 0 then Some(Rax) else if c == 1 then Some(Rcx)
    else if c == 2 then Some(Rdx) else if c == 3 then Some(Rbx) else None
  }

  datatype Operands = Operands(mod: int, reg: Reg, rm: Reg)

  /** An imm8 operand read as a signed byte. */
  function SignExtend(b: Byte): (v: Int8) {
    var v: int := b;
    if v < 0x80 then v else v - 0x100
  }

  function SplitModRM(b: Byte): Option<Operands> {
    match (RegOf(b / 8 % 8), RegOf(b % 8))
    case (Some(reg), Some(rm)) => Some(Operands(b / 0x40, reg, rm))
    case _ => None
  }

  datatype Decoded = Decoded(insn: Insn, length: nat)

  /** Decodes the instruction at the head of `code`. */
  function Decode(code: seq<Byte>): Option<Decoded> {
    if code == [] then None
    else if code[0] == 0xC3 then Some(Decoded(RetNear, 1))
    else if 0x50 <= code[0] < 0x54 then
      var r := RegOf(code[0] - 0x50);
      if r.Some? then Some(Decoded(Push(r.value), 1)) else None
    else if 0x58 <= code[0] < 0x5C then
      var r := RegOf(code[0] - 0x58);
      if r.Some? then Some(Decoded(Pop(r.value), 1)) else None
    else if code[0] == 0x6A then
      if |code| < 2 then None
      else Some(Decoded(PushImm8(SignExtend(code[1])), 2))
    else if code[0] == 0x48 && |code| >= 2 then DecodeRexW(code)
    else None
  }

  /** The REX.W forms: code[0] is the 0x48 prefix, code[1] the opcode. */
  function DecodeRexW(code: seq<Byte>): Option<Decoded>
    requires |code| >= 2
  {
    if 0xB8 <= code[1] < 0xBC then
      var r := RegOf(code[1] - 0xB8);
      if r.None? || |code| < 10 then None
      else Some(Decoded(MovImm64(r.value, Wrap(FromLittleEndian(code[2..10]))), 10))
    else if code[1] == 0x0F then
      if |code| < 4 || code[2] != 0xAF then None
      else
        var o := SplitModRM(code[3]);
        if o.Some? && o.value.mod == 3 then Some(Decoded(ImulRR(o.value.reg, o.value.rm), 4)) else None
    else if |code| < 3 then None
    else
      var o := SplitModRM(code[2]);
      if o.None? then None
      else if o.value.mod == 3 && code[1] == 0x01 then Some(Decoded(AddRR(o.value.rm, o.value.reg), 3))
      else if o.value.mod == 3 && code[1] == 0x29 then Some(Decoded(SubRR(o.value.rm, o.value.reg), 3))
      else if o.value.mod == 0 && code[1] == 0x89 then Some(Decoded(MovToMem(o.value.rm, o.value.reg), 3))
      else if o.value.mod == 0 && code[1] == 0x8B then Some(Decoded(MovFromMem(o.value.reg, o.value.rm), 3))
      else None
  }

  lemma FieldsOf(mod: int, c: int, d: int)
    requires (mod == 0 || mod == 3) && 0 <= c < 4 && 0 <= d < 4
    ensures var m := 0x40 * mod + 8 * c + d; m % 8 == d && m / 8 % 8 == c && m / 0x40 == mod
  {
    var m := 0x40 * mod + 8 * c + d;
    assert m == 8 * (8 * mod + c) + d;
    assert m / 8 == 8 * mod + c;
  }

  lemma RegOfCode(r: Reg)
    ensures RegOf(Code(r)) == Some(r)
  {
  }

  lemma ModRMRoundTrip(mod: Byte, a: Reg, b: Reg)
    requires mod == 0 || mod == 3
    ensures SplitModRM(ModRM(mod, Code(a), Code(b))) == Some(Operands(mod, a, b))
  {
    hide Code, RegOf;
    var m := ModRM(mod, Code(a), Code(b));
    FieldsOf(mod, Code(a), Code(b));
    RegOfCode(a);
    RegOfCode(b);
    assert RegOf(m / 8 % 8) == Some(a) && RegOf(m % 8) == Some(b);
  }

  lemma DecodeMovImm64(r: Reg, imm: Word, rest: seq<Byte>)
    ensures Decode(Encode(MovImm64(r, imm)) + rest) == Some(Decoded(MovImm64(r, imm), 10))
  {
    hide LittleEndian, FromLittleEndian, RegOf;
    var code := Encode(MovImm64(r, imm)) + rest;
    Powers();
    LittleEndianRoundTrip(imm, 8);
    RegOfCode(r);
    assert code[0] == 0x48 && code[1] == 0xB8 + Code(r) && code[2..10] == LittleEndian(imm, 8);
  }

  lemma DecodePushImm8(v: Int8, rest: seq<Byte>)
    ensures Decode(Encode(PushImm8(v)) + rest) == Some(Decoded(PushImm8(v), 2))
  {
    var code := Encode(PushImm8(v)) + rest;
    assert code[0] == 0x6A && SignExtend(code[1]) == v;
  }

  lemma DecodePush(r: Reg, rest: seq<Byte>)
    ensures Decode(Encode(Push(r)) + rest) == Some(Decoded(Push(r), 1))
  {
    RegOfCode(r);
    assert (Encode(Push(r)) + rest)[0] == 0x50 + Code(r);
  }

  lemma DecodePop(r: Reg, rest: seq<Byte>)
    ensures Decode(Encode(Pop(r)) + rest) == Some(Decoded(Pop(r), 1))
  {
    RegOfCode(r);
    assert (Encode(Pop(r)) + rest)[0] == 0x58 + Code(r);
  }

  lemma DecodeImul(d: Reg, s: Reg, rest: seq<Byte>)
    ensures Decode(Encode(ImulRR(d, s)) + rest) == Some(Decoded(ImulRR(d, s), 4))
  {
    hide ModRM, SplitModRM;
    ModRMRoundTrip(3, d, s);
    var code := Encode(ImulRR(d, s)) + rest;
    assert code[0] == 0x48 && code[1] == 0x0F && code[2] == 0xAF && code[3] == ModRM(3, Code(d), Code(s));
  }

  /** The three-byte forms REX.W, opcode, ModR/M. */
  lemma DecodeThreeByte(opcode: Byte, mod: Byte, reg: Reg, rm: Reg, i: Insn, rest: seq<Byte>)
    requires mod == 3 && opcode == 0x01 ==> i == AddRR(rm, reg)
    requires mod == 3 && opcode == 0x29 ==> i == SubRR(rm, reg)
    requires mod == 0 && opcode == 0x89 ==> i == MovToMem(rm, reg)
    requires mod == 0 && opcode == 0x8B ==> i == MovFromMem(reg, rm)
    requires (mod == 3 && (opcode == 0x01 || opcode == 0x29)) || (mod == 0 && (opcode == 0x89 || opcode == 0x8B))
    ensures Decode([0x48, opcode, ModRM(mod, Code(reg), Code(rm))] + rest) == Some(Decoded(i, 3))
  {
    hide ModRM, SplitModRM;
    ModRMRoundTrip(mod, reg, rm);
    var code := [0x48, opcode, ModRM(mod, Code(reg), Code(rm))] + rest;
    assert code[0] == 0x48 && code[1] == opcode && code[2] == ModRM(mod, Code(reg), Code(rm));
  }

  /** Decoding is unique: whatever follows, the head of the bytes is the instruction that was encoded. */
  lemma DecodeEncode(i: Insn, rest: seq<Byte>)
    ensures Decode(Encode(i) + rest) == Some(Decoded(i, |Encode(i)|))
  {
    hide LittleEndian, Decode, ModRM;
    match i
    case MovImm64(r, imm) => DecodeMovImm64(r, imm, rest);
    case PushImm8(v) => DecodePushImm8(v, rest);
    case Push(r) => DecodePush(r, rest);
    case Pop(r) => DecodePop(r, rest);
    case AddRR(d, s) => DecodeThreeByte(0x01, 3, s, d, i, rest);
    case SubRR(d, s) => DecodeThreeByte(0x29, 3, s, d, i, rest);
    case ImulRR(d, s) => DecodeImul(d, s, rest);
    case MovToMem(b, s) => DecodeThreeByte(0x89, 0, s, b, i, rest);
    case MovFromMem(d, b) => DecodeThreeByte(0x8B, 0, d, b, i, rest);
    case RetNear => DecodeRet(rest);
  }

  lemma DecodeRet(rest: seq<Byte>)
    ensures Decode(Encode(RetNear) + rest) == Some(Decoded(RetNear, 1))
  {
    assert (Encode(RetNear) + rest)[0] == 0xC3;
  }

  /** Linear-sweep disassembly of a whole code sequence. */
  function Disassemble(code: seq<Byte>): Option<seq<Insn>>
    decreases |code|
  {
    if code == [] then Some([])
    else
      var d := Decode(code);
      if d.None? || d.value.length == 0 || d.value.length > |code| then None
      else
        var rest := Disassemble(code[d.value.length..]);
        if rest.None? then None else Some([d.value.insn] + rest.value)
  }

  lemma {:induction false} DisassembleEncodeAll(insns: seq<Insn>)
    ensures Disassemble(EncodeAll(insns)) == Some(insns)
  {
    if insns != [] {
      var head, tail := Encode(insns[0]), EncodeAll(insns[1..]);
      DecodeEncode(insns[0], tail);
      DisassembleEncodeAll(insns[1..]);
      assert (head + tail)[|head|..] == tail;
      assert [insns[0]] + insns[1..] == insns;
    }
  }

  lemma {:induction false} EncodeAllConcat(a: seq<Insn>, b: seq<Insn>)
    ensures EncodeAll(a + b) == EncodeAll(a) + EncodeAll(b)
  {
    hide Encode;
    if a == [] {
      assert a + b == b;
    } else {
      var head := Encode(a[0]);
      EncodeAllConcat(a[1..], b);
      assert (a + b)[1..] == a[1..] + b && (a + b)[0] == a[0];
      assert EncodeAll(a + b) == head + (EncodeAll(a[1..]) + EncodeAll(b));
    }
  }

  // ---- Memory: a partial map from byte addresses ----

  type Memory = map<Word, Byte>

  /** The `n` bytes at `a`, `a + 1`, ... (wrapping), or None if one of them is not mapped. */
  function Peek(mem: Memory, a: Word, n: nat): (bs: Option<seq<Byte>>)
    ensures bs.Some? ==> |bs.value| == n
    decreases n
  {
    if n == 0 then Some([])
    else
      var rest := Peek(mem, Wrap(a + 1), n - 1);
      if a in mem && rest.Some? then Some([mem[a]] + rest.value) else None
  }

  function Poke(mem: Memory, a: Word, bs: seq<Byte>): Memory
    decreases |bs|
  {
    if bs == [] then mem else Poke(mem, Wrap(a + 1), bs[1..])[a := bs[0]]
  }

  function ReadWord(mem: Memory, a: Word): Option<Word> {
    var bs := Peek(mem, a, 8);
    if bs.None? then None else Some(Wrap(FromLittleEndian(bs.value)))
  }

  /** Writing a word succeeds when the eight bytes are mapped. */
  function WriteWord(mem: Memory, a: Word, v: Word): Option<Memory> {
    if Peek(mem, a, 8).None? then None else Some(Poke(mem, a, LittleEndian(v, 8)))
  }

  /** Whether `x` is one of the `n` bytes from `a` on, wrapping at the end of the address space. */
  predicate Within(x: Word, a: Word, n: nat) {
    Wrap(x - a) < n
  }

  lemma WithinNext(x: Word, a: Word, n: nat)
    requires 0 < n <= 8
    ensures Within(x, a, n) <==> x == a || Within(x, Wrap(a + 1), n - 1)
  {
  }

  lemma {:induction false} PokeElsewhere(mem: Memory, a: Word, bs: seq<Byte>, x: Word)
    requires |bs| <= 8 && !Within(x, a, |bs|)
    ensures x in Poke(mem, a, bs) <==> x in mem
    ensures x in mem ==> Poke(mem, a, bs)[x] == mem[x]
    decreases |bs|
  {
    if bs != [] {
      WithinNext(x, a, |bs|);
      PokeElsewhere(mem, Wrap(a + 1), bs[1..], x);
    }
  }

  lemma {:induction false} PeekOverUpdate(mem: Memory, x: Word, v: Byte, a: Word, n: nat)
    requires n <= 8 && !Within(x, a, n)
    ensures Peek(mem[x := v], a, n) == Peek(mem, a, n)
    decreases n
  {
    if n > 0 {
      WithinNext(x, a, n);
      PeekOverUpdate(mem, x, v, Wrap(a + 1), n - 1);
    }
  }

  lemma {:induction false} PeekPoke(mem: Memory, a: Word, bs: seq<Byte>)
    requires |bs| <= 8
    ensures Peek(Poke(mem, a, bs), a, |bs|) == Some(bs)
    decreases |bs|
  {
    if bs != [] {
      var next := Wrap(a + 1);
      PeekPoke(mem, next, bs[1..]);
      assert !Within(a, next, |bs| - 1);
      PeekOverUpdate(Poke(mem, next, bs[1..]), a, bs[0], next, |bs| - 1);
      assert [bs[0]] + bs[1..] == bs;
    }
  }

  /** The address `k` bytes after `a`, wrapping. */
  function Address(a: Word, k: nat): Word {
    Wrap(a + k)
  }

  /** The `n` bytes from `a` on are mapped. */
  predicate Mapped(mem: Memory, a: Word, n: nat) {
    forall k: nat | k < n :: Address(a, k) in mem
  }

  lemma AddressNext(a: Word, k: nat)
    ensures Address(Wrap(a + 1), k) == Address(a, k + 1) && Address(a, 0) == a
  {
  }

  lemma MappedNext(mem: Memory, a: Word, n: nat)
    requires n > 0
    ensures Mapped(mem, a, n) <==> a in mem && Mapped(mem, Wrap(a + 1), n - 1)
  {
    hide Address;
    AddressNext(a, 0);
    var next := Wrap(a + 1);
    if Mapped(mem, a, n) {
      forall k: nat | k < n - 1 ensures Address(next, k) in mem {
        AddressNext(a, k);
      }
    }
    if a in mem && Mapped(mem, next, n - 1) {
      forall k: nat | k < n ensures Address(a, k) in mem {
        if k > 0 {
          AddressNext(a, k - 1);
        }
      }
    }
  }

  lemma {:induction false} PeekIff(mem: Memory, a: Word, n: nat)
    ensures Peek(mem, a, n).Some? <==> Mapped(mem, a, n)
    decreases n
  {
    if n > 0 {
      PeekIff(mem, Wrap(a + 1), n - 1);
      MappedNext(mem, a, n);
      hide Mapped, Wrap;
    }
  }

  lemma {:induction false} PeekAt(mem: Memory, a: Word, n: nat, k: nat)
    requires Peek(mem, a, n).Some? && k < n
    ensures Address(a, k) in mem && Peek(mem, a, n).value[k] == mem[Address(a, k)]
    decreases n
  {
    hide Wrap, Address;
    AddressNext(a, 0);
    if k > 0 {
      PeekAt(mem, Wrap(a + 1), n - 1, k - 1);
      AddressNext(a, k - 1);
    }
  }

  /** A load or a store succeeds exactly when the eight addresses are mapped, whatever the word. */
  lemma AccessIff(mem: Memory, a: Word, v: Word)
    ensures ReadWord(mem, a).Some? <==> Mapped(mem, a, 8)
    ensures WriteWord(mem, a, v).Some? <==> Mapped(mem, a, 8)
  {
    hide Peek, Poke, LittleEndian, FromLittleEndian;
    PeekIff(mem, a, 8);
  }

  /** The word loaded has the byte at `a + k` as its byte `k`, least significant first. */
  lemma LoadedByte(mem: Memory, a: Word, k: nat)
    requires ReadWord(mem, a).Some? && k < 8
    ensures Address(a, k) in mem && mem[Address(a, k)] == ReadWord(mem, a).value / Power256(k) % 0x100
  {
    hide Peek, LittleEndian, FromLittleEndian, Power256;
    var bs := Peek(mem, a, 8).value;
    PeekAt(mem, a, 8, k);
    Powers();
    LittleEndianOfBytes(bs);
    LittleEndianAt(FromLittleEndian(bs), 8, k);
    assert Wrap(FromLittleEndian(bs)) == FromLittleEndian(bs);
  }

  /** A word reads back as written; bytes outside the eight written ones do not change. */
  lemma ReadAfterWrite(mem: Memory, a: Word, v: Word)
    requires WriteWord(mem, a, v).Some?
    ensures ReadWord(WriteWord(mem, a, v).value, a) == Some(v)
    ensures forall x: Word | !Within(x, a, 8) ::
              (x in WriteWord(mem, a, v).value <==> x in mem)
              && (x in mem ==> WriteWord(mem, a, v).value[x] == mem[x])
  {
    hide Poke, LittleEndian, FromLittleEndian, Peek;
    Powers();
    LittleEndianRoundTrip(v, 8);
    PeekPoke(mem, a, LittleEndian(v, 8));
    forall x: Word | !Within(x, a, 8)
      ensures (x in WriteWord(mem, a, v).value <==> x in mem)
              && (x in mem ==> WriteWord(mem, a, v).value[x] == mem[x])
    {
      PokeElsewhere(mem, a, LittleEndian(v, 8), x);
    }
  }

  // ---- Execution ----

  datatype Regs = Regs(rax: Word, rcx: Word, rdx: Word, rbx: Word) {
    function Get(r: Reg): Word {
      match r case Rax => rax case Rcx => rcx case Rdx => rdx case Rbx => rbx
    }

    function Set(r: Reg, w: Word): Regs {
      match r
      case Rax => this.(rax := w)
      case Rcx => this.(rcx := w)
      case Rdx => this.(rdx := w)
      case Rbx => this.(rbx := w)
    }
  }

  datatype State = State(regs: Regs, stack: seq<Word>, mem: Memory)

  /** Running code, control passed to an outside address by `ret`, or a fault. */
  datatype Machine =
    | Running(ip: nat, state: State)
    | Exited(target: Word, state: State)
    | Faulted

  /** Executes one instruction whose successor is at `next`. */
  function Exec(i: Insn, next: nat, s: State): (m: Machine)
    ensures m.Running? ==> m.ip == next
  {
    var g := s.regs;
    match i
    case MovImm64(r, imm) => Running(next, s.(regs := g.Set(r, imm)))
    case PushImm8(v) => Running(next, s.(stack := [Wrap(v)] + s.stack))
    case Push(r) => Running(next, s.(stack := [g.Get(r)] + s.stack))
    case Pop(r) =>
      if s.stack == [] then Faulted
      else Running(next, s.(regs := g.Set(r, s.stack[0]), stack := s.stack[1..]))
    case AddRR(d, r) => Running(next, s.(regs := g.Set(d, Wrap(g.Get(d) + g.Get(r)))))
    case SubRR(d, r) => Running(next, s.(regs := g.Set(d, Wrap(g.Get(d) - g.Get(r)))))
    case ImulRR(d, r) => Running(next, s.(regs := g.Set(d, Wrap(Signed(g.Get(d)) * Signed(g.Get(r))))))
    case MovToMem(b, r) =>
      var w := WriteWord(s.mem, g.Get(b), g.Get(r));
      if w.None? then Faulted else Running(next, s.(mem := w.value))
    case MovFromMem(d, b) =>
      var w := ReadWord(s.mem, g.Get(b));
      if w.None? then Faulted else Running(next, s.(regs := g.Set(d, w.value)))
    case RetNear =>
      if s.stack == [] then Faulted else Exited(s.stack[0], s.(stack := s.stack[1..]))
  }

  /** One fetch-decode-execute cycle; undecodable bytes fault. */
  function Step(code: seq<Byte>, m: Machine): Machine {
    if !m.Running? then m
    else if m.ip > |code| then Faulted
    else
      var d := Decode(code[m.ip..]);
      if d.None? then Faulted else Exec(d.value.insn, m.ip + d.value.length, m.state)
  }

  function Run(code: seq<Byte>, m: Machine, steps: nat): Machine
    decreases steps
  {
    if steps == 0 then m else Run(code, Step(code, m), steps - 1)
  }

  /** The machine stops in `final` after finitely many steps. */
  ghost predicate Halts(code: seq<Byte>, m: Machine, final: Machine) {
    !final.Running? && exists n: nat :: Run(code, m, n) == final
  }

  lemma {:induction false} RunStopped(code: seq<Byte>, m: Machine, n: nat)
    requires !m.Running?
    ensures Run(code, m, n) == m
  {
    if n > 0 {
      RunStopped(code, m, n - 1);
    }
  }

  lemma {:induction false} RunAdd(code: seq<Byte>, m: Machine, a: nat, b: nat)
    ensures Run(code, m, a + b) == Run(code, Run(code, m, a), b)
    decreases a
  {
    if a > 0 {
      RunAdd(code, Step(code, m), a - 1, b);
    }
  }

  /** Execution is deterministic, so the halting state is unique. */
  lemma HaltsUnique(code: seq<Byte>, m: Machine, f: Machine, g: Machine)
    requires Halts(code, m, f) && Halts(code, m, g)
    ensures f == g
  {
    var a: nat :| Run(code, m, a) == f;
    var b: nat :| Run(code, m, b) == g;
    RunAdd(code, m, a, b);
    RunStopped(code, f, b);
    RunAdd(code, m, b, a);
    RunStopped(code, g, a);
  }

  /** Executes `i` next, unless the machine has stopped. */
  function Then(m: Machine, i: Insn): Machine {
    if m.Running? then Exec(i, m.ip + |Encode(i)|, m.state) else m
  }

  /** Executing a straight-line list of instructions, stopping at the first exit or fault. */
  function ExecAll(insns: seq<Insn>, m: Machine): Machine
    decreases |insns|
  {
    if insns == [] then m else ExecAll(insns[1..], Then(m, insns[0]))
  }

  lemma {:induction false} ExecAllConcat(a: seq<Insn>, b: seq<Insn>, m: Machine)
    ensures ExecAll(a + b, m) == ExecAll(b, ExecAll(a, m))
    decreases |a|
  {
    hide Then;
    if a == [] {
      assert a + b == b;
    } else {
      ExecAllConcat(a[1..], b, Then(m, a[0]));
      assert (a + b)[1..] == a[1..] + b && (a + b)[0] == a[0];
    }
  }

  /** Fetching from encoded bytes executes the instructions that were encoded. */
  lemma {:induction false} RunEncoded(pre: seq<Byte>, insns: seq<Insn>, post: seq<Byte>, m: Machine)
    requires m.Running? ==> m.ip == |pre|
    ensures Run(pre + EncodeAll(insns) + post, m, |insns|) == ExecAll(insns, m)
    decreases |insns|
  {
    hide Encode, Exec, Decode;
    var code := pre + EncodeAll(insns) + post;
    if insns != [] {
      var head, tail := Encode(insns[0]), EncodeAll(insns[1..]);
      assert code == pre + head + tail + post;
      if m.Running? {
        assert code[|pre|..] == head + (tail + post);
        DecodeEncode(insns[0], tail + post);
      }
      assert Step(code, m) == Then(m, insns[0]);
      RunEncoded(pre + head, insns[1..], post, Step(code, m));
    }
  }
}

/**
  The x86-64 instructions the code generator emits: how it encodes them, how the processor decodes
  and executes them (Intel 64 and IA-32 Architectures Software Developer's Manual, Volume 2,
  sections 2.1.3 and 2.2.1 and the entries of MOV, ADD, CMP, Jcc, JMP, CALL and RET).
*/
module X86 {
  import opened Words

  const RAX: nat := 0

  /** What the generator means to emit; branch targets are blocks, call targets functions. */
  datatype Asm =
    | MovImm(dst: nat, imm: Word)
    | MovReg(src: nat, dst: nat)
    | AddReg(left: nat, right: nat)
    | LoadMem(addr: nat, dst: nat)
    | StoreMem(src: nat, addr: nat)
    | CmpZero(reg: nat)
    | JzTo(block: nat)
    | JmpTo(block: nat)
    | CallHole(func: nat)   // mov rax, imm64 whose immediate the link step fills in
    | CallRax
    | Return
  {
    function Size(): nat {
      match this
      case MovImm(_, _) => 10
      case MovReg(_, _) => 3
      case AddReg(_, _) => 2
      case LoadMem(_, _) => 3
      case StoreMem(_, _) => 3
      case CmpZero(_) => 4
      case JzTo(_) => 6
      case JmpTo(_) => 5
      case CallHole(_) => 10
      case CallRax => 3
      case Return => 1
    }

    predicate IsBranch() {
      JzTo? || JmpTo?
    }

    /** Where the rel32 field of a branch starts inside the instruction. */
    function Hole(): nat {
      if JzTo? then 2 else 1
    }

    /** Only register codes that exist, as the register table hands out. */
    predicate Codes() {
      match this
      case MovImm(d, _) => d < 16
      case MovReg(s, d) => s < 16 && d < 16
      case AddReg(l, r) => l < 16 && r < 16
      case LoadMem(a, d) => a < 16 && d < 16
      case StoreMem(s, a) => s < 16 && a < 16
      case CmpZero(r) => r < 16
      case _ => true
    }

    /** The encoders that use three-bit register fields without a REX extension need codes below 8. */
    predicate Encodable() {
      match this
      case MovImm(d, _) => d < 8
      case MovReg(s, d) => s < 16 && d < 16
      case AddReg(l, r) => l < 8 && r < 8
      case LoadMem(a, d) => a < 8 && d < 8 && a != 4 && a != 5
      case StoreMem(s, a) => s < 8 && a < 8 && a != 4 && a != 5
      case CmpZero(r) => r < 8
      case _ => true
    }
  }

  /**
    (3 << 6) | (right << 3) | left in one byte. Both codes can be up to 15: then right's top bit
    falls on the mode bits, which are set anyway, and left's top bit on right's lowest bit.
  */
  function AddModRM(left: nat, right: nat): Byte
    requires left < 16 && right < 16
  {
    var mid := right % 8;
    0xC0 + 8 * (if left >= 8 && mid % 2 == 0 then mid + 1 else mid) + left % 8
  }

  /** Bit by bit, that byte is 3 shifted by 6, or right shifted by 3, or left. */
  lemma AddModRMBits(l0: nat, l1: nat, l2: nat, l3: nat, r0: nat, r1: nat, r2: nat, r3: nat)
    requires l0 < 2 && l1 < 2 && l2 < 2 && l3 < 2 && r0 < 2 && r1 < 2 && r2 < 2 && r3 < 2
    ensures AddModRM(8 * l3 + 4 * l2 + 2 * l1 + l0, 8 * r3 + 4 * r2 + 2 * r1 + r0) ==
            128 + 64 + 32 * r2 + 16 * r1 + 8 * (if l3 == 1 || r0 == 1 then 1 else 0) + 4 * l2 + 2 * l1 + l0
  {
    var left, right := 8 * l3 + 4 * l2 + 2 * l1 + l0, 8 * r3 + 4 * r2 + 2 * r1 + r0;
    assert left % 8 == 4 * l2 + 2 * l1 + l0 && (left >= 8 <==> l3 == 1);
    assert right % 8 == 4 * r2 + 2 * r1 + r0 && right % 8 % 2 == r0;
  }

  /** The bytes of an instruction, with disp in the rel32 field of a branch. */
  function Encode(a: Asm, disp: int): (bytes: seq<Byte>)
    ensures |bytes| == a.Size()
  {
    match a
    case MovImm(d, imm) => [0x48, 0xB8 + d % 8] + ToLE(8, imm)
    case MovReg(s, d) =>
      [0x48 + 4 * (s / 8 % 2) + d / 8 % 2, 0x89, 0xC0 + 8 * (s % 8) + d % 8]
    case AddReg(l, r) => [0x01, AddModRM(l % 16, r % 16)]
    case LoadMem(addr, d) => [0x48, 0x8B, 8 * (d % 8) + addr % 8]
    case StoreMem(s, addr) => [0x48, 0x89, 8 * (s % 8) + addr % 8]
    case CmpZero(r) => [0x48, 0x83, 0xF8 + r % 8, 0x00]
    case JzTo(_) => [0x0F, 0x84] + ToLE(4, disp)
    case JmpTo(_) => [0xE9] + ToLE(4, disp)
    case CallHole(_) => [0x48, 0xB8] + ToLE(8, 0)
    case CallRax => [0x48, 0xFF, 0xD0]
    case Return => [0xC3]
  }

  // ----- decoding -----

  datatype Ins =
    | IMovImm(dst: nat, imm: Word)
    | IMovReg(dst: nat, src: nat)
    | IAdd32(dst: nat, src: nat)
    | IAdd64(dst: nat, src: nat)
    | ILoad(dst: nat, base: nat)
    | IStore(base: nat, src: nat)
    | ICmpImm(reg: nat, imm8: int)
    | IJz(rel: int)
    | IJmp(rel: int)
    | ICall(reg: nat)
    | IRet
  {
    predicate Registers() {
      match this
      case IMovImm(d, _) => d < 16
      case IMovReg(d, s) => d < 16 && s < 16
      case IAdd32(d, s) => d < 16 && s < 16
      case IAdd64(d, s) => d < 16 && s < 16
      case ILoad(d, b) => d < 16 && b < 16
      case IStore(b, s) => b < 16 && s < 16
      case ICmpImm(r, _) => r < 16
      case ICall(r) => r < 16
      case _ => true
    }
  }

  datatype Decoded = Decoded(ins: Ins, next: nat)

  function Rel32(code: seq<Byte>, p: nat): int
    requires p + 4 <= |code|
  {
    SignedAt(Bits32, FromLE(code[p..p + 4]))
  }

  function Imm64(code: seq<Byte>, p: nat): Word
    requires p + 8 <= |code|
  {
    FromLE(code[p..p + 8]) % W64
  }

  /** An opcode whose ModR/M byte has the given fields; w, r and b are the REX bits. */
  function DecodeFields(code: seq<Byte>, p: nat, mode: nat, reg: nat, rm: nat, w: nat, r: nat, b: nat): (d: Option<Decoded>)
    requires p + 1 < |code| && reg < 8 && rm < 8 && r <= 1 && b <= 1
    ensures d.Some? ==> d.value.ins.Registers()
  {
    var op := code[p];
    var direct := mode == 0 && rm != 4 && rm != 5;
    if op == 0x89 && mode == 3 && w == 1 then Some(Decoded(IMovReg(rm + 8 * b, reg + 8 * r), p + 2))
    else if op == 0x89 && direct && w == 1 then Some(Decoded(IStore(rm + 8 * b, reg + 8 * r), p + 2))
    else if op == 0x8B && direct && w == 1 then Some(Decoded(ILoad(reg + 8 * r, rm + 8 * b), p + 2))
    else if op == 0x01 && mode == 3 && w == 0 then Some(Decoded(IAdd32(rm + 8 * b, reg + 8 * r), p + 2))
    else if op == 0x01 && mode == 3 then Some(Decoded(IAdd64(rm + 8 * b, reg + 8 * r), p + 2))
    else if op == 0x83 && mode == 3 && reg == 7 && w == 1 && p + 2 < |code| then
      Some(Decoded(ICmpImm(rm + 8 * b, SignedAt(Bits8, code[p + 2])), p + 3))
    else if op == 0xFF && mode == 3 && reg == 2 then Some(Decoded(ICall(rm + 8 * b), p + 2))
    else None
  }

  function DecodeOp(code: seq<Byte>, p: nat, w: nat, r: nat, b: nat): (d: Option<Decoded>)
    requires r <= 1 && b <= 1
    ensures d.Some? ==> d.value.ins.Registers()
  {
    if p >= |code| then None
    else if code[p] == 0xC3 then Some(Decoded(IRet, p + 1))
    else if code[p] == 0xE9 then
      if p + 5 <= |code| then Some(Decoded(IJmp(Rel32(code, p + 1)), p + 5)) else None
    else if code[p] == 0x0F then
      if p + 6 <= |code| && code[p + 1] == 0x84 then Some(Decoded(IJz(Rel32(code, p + 2)), p + 6)) else None
    else if 0xB8 <= code[p] < 0xC0 then
      if w == 1 && p + 9 <= |code| then Some(Decoded(IMovImm(code[p] - 0xB8 + 8 * b, Imm64(code, p + 1)), p + 9)) else None
    else if p + 1 < |code| then
      DecodeFields(code, p, code[p + 1] / 0x40, code[p + 1] / 8 % 8, code[p + 1] % 8, w, r, b)
    else None
  }

  /** The instruction at p: an optional REX prefix, then the opcode. */
  function Decode(code: seq<Byte>, p: nat): (d: Option<Decoded>)
    ensures d.Some? ==> d.value.ins.Registers()
  {
    if p < |code| && 0x40 <= code[p] < 0x50
    then DecodeOp(code, p + 1, code[p] / 8 % 2, code[p] / 4 % 2, code[p] % 2)
    else DecodeOp(code, p, 0, 0, 0)
  }

  // ----- execution -----

  datatype Cpu = Cpu(regs: seq<Word>, pc: nat, zf: bool, mem: Memory)

  datatype CpuOutcome = Executing(cpu: Cpu) | Halted(rax: Word, mem: Memory) | Stuck

  predicate HasRegisters(cpu: Cpu) {
    |cpu.regs| == 16
  }

  function Goto(cpu: Cpu, target: int): CpuOutcome {
    if target < 0 then Stuck else Executing(cpu.(pc := target))
  }

  function Read8(mem: Memory, addr: int): Word
    requires Mapped(mem, addr, 8)
  {
    FromLE(ReadBytes(mem, addr, 8)) % W64
  }

  function Execute(cpu: Cpu, d: Decoded): (o: CpuOutcome)
    requires HasRegisters(cpu) && d.ins.Registers()
    ensures o.Executing? ==> HasRegisters(o.cpu)
  {
    var after := cpu.(pc := d.next);
    match d.ins
    case IMovImm(r, imm) => Executing(after.(regs := cpu.regs[r := imm]))
    case IMovReg(r, s) => Executing(after.(regs := cpu.regs[r := cpu.regs[s]]))
    case IAdd32(r, s) =>
      // a 32-bit result clears the upper half of the register
      var sum := (cpu.regs[r] % W32 + cpu.regs[s] % W32) % W32;
      Executing(after.(regs := cpu.regs[r := sum], zf := sum == 0))
    case IAdd64(r, s) =>
      var x: int, y: int := cpu.regs[r], cpu.regs[s];
      var sum := Wrap(x + y);
      Executing(after.(regs := cpu.regs[r := sum], zf := sum == 0))
    case ILoad(r, b) =>
      if Mapped(cpu.mem, cpu.regs[b], 8) then Executing(after.(regs := cpu.regs[r := Read8(cpu.mem, cpu.regs[b])]))
      else Stuck
    case IStore(b, s) =>
      if Mapped(cpu.mem, cpu.regs[b], 8) then Executing(after.(mem := WriteBytes(cpu.mem, cpu.regs[b], ToLE(8, cpu.regs[s]))))
      else Stuck
    case ICmpImm(r, imm) => Executing(after.(zf := cpu.regs[r] == Wrap(imm)))
    case IJz(rel) => if cpu.zf then Goto(cpu, d.next + rel) else Executing(after)
    case IJmp(rel) => Goto(cpu, d.next + rel)
    case IRet => Halted(cpu.regs[RAX], cpu.mem)
    case ICall(_) => Stuck   // calls leave the code this machine executes
  }

  function CpuStep(code: seq<Byte>, cpu: Cpu): (o: CpuOutcome)
    requires HasRegisters(cpu)
    ensures o.Executing? ==> HasRegisters(o.cpu)
  {
    match Decode(code, cpu.pc)
    case None => Stuck
    case Some(d) => Execute(cpu, d)
  }

  function CpuRun(code: seq<Byte>, cpu: Cpu, steps: nat): (o: CpuOutcome)
    requires HasRegisters(cpu)
    ensures o.Executing? ==> HasRegisters(o.cpu)
    decreases steps
  {
    if steps == 0 then Executing(cpu)
    else match CpuStep(code, cpu)
      case Executing(next) => CpuRun(code, next, steps - 1)
      case Halted(rax, mem) => Halted(rax, mem)
      case Stuck => Stuck
  }

  lemma {:induction false} CpuRunSplit(code: seq<Byte>, cpu: Cpu, j: nat, k: nat)
    requires HasRegisters(cpu) && CpuRun(code, cpu, j).Executing?
    ensures CpuRun(code, cpu, j + k) == CpuRun(code, CpuRun(code, cpu, j).cpu, k)
    decreases j
  {
    hide CpuStep;
    if j > 0 {
      CpuRunSplit(code, CpuStep(code, cpu).cpu, j - 1, k);
    }
  }

  // ----- decoding inverts encoding -----

  /** The instruction that the bytes of a decode to. */
  function Meaning(a: Asm, disp: int): Ins {
    match a
    case MovImm(d, imm) => IMovImm(d, imm)
    case MovReg(s, d) => IMovReg(d, s)
    case AddReg(l, r) => IAdd32(l, r)
    case LoadMem(addr, d) => ILoad(d, addr)
    case StoreMem(s, addr) => IStore(addr, s)
    case CmpZero(r) => ICmpImm(r, 0)
    case JzTo(_) => IJz(disp)
    case JmpTo(_) => IJmp(disp)
    case CallHole(_) => IMovImm(RAX, 0)
    case CallRax => ICall(RAX)
    case Return => IRet
  }

  predicate IsInt32(x: int) {
    -0x8000_0000 <= x < 0x8000_0000
  }

  lemma Rel32ReadsBack(code: seq<Byte>, p: nat, disp: int)
    requires p + 4 <= |code| && code[p..p + 4] == ToLE(4, disp) && IsInt32(disp)
    ensures Rel32(code, p) == disp
  {
    RoundTripLE(4, disp);
    Pow256Values();
    ModOfMod(disp, W32, 1);
  }

  lemma Imm64ReadsBack(code: seq<Byte>, p: nat, imm: Word)
    requires p + 8 <= |code| && code[p..p + 8] == ToLE(8, imm)
    ensures Imm64(code, p) == imm
  {
    hide ToLE, FromLE;
    RoundTripLE(8, imm);
    Pow256Values();
  }

  lemma DecodesAtImm(code: seq<Byte>, p: nat, a: Asm, imm: Word)
    requires (a.MovImm? && a.imm == imm) || (a.CallHole? && imm == 0)
    requires a.Encodable() && p + a.Size() <= |code| && code[p..p + a.Size()] == Encode(a, 0)
    ensures Decode(code, p) == Some(Decoded(Meaning(a, 0), p + a.Size()))
  {
    hide ToLE, FromLE;
    var bytes := code[p..p + 10];
    assert bytes[0] == code[p] && bytes[1] == code[p + 1];
    assert code[p + 2..p + 10] == bytes[2..] == ToLE(8, imm);
    Imm64ReadsBack(code, p + 2, imm);
  }

  lemma DecodesAtBranch(code: seq<Byte>, p: nat, a: Asm, disp: int)
    requires a.IsBranch() && IsInt32(disp)
    requires p + a.Size() <= |code| && code[p..p + a.Size()] == Encode(a, disp)
    ensures Decode(code, p) == Some(Decoded(Meaning(a, disp), p + a.Size()))
  {
    var bytes := code[p..p + a.Size()];
    assert bytes[0] == code[p] && bytes[1] == code[p + 1];
    assert code[p + a.Hole()..p + a.Size()] == bytes[a.Hole()..] == ToLE(4, disp);
    Rel32ReadsBack(code, p + a.Hole(), disp);
  }

  lemma ModRMFields(mode: nat, reg: nat, rm: nat)
    requires mode < 4 && reg < 8 && rm < 8
    ensures var m := 0x40 * mode + 8 * reg + rm; m / 0x40 == mode && m / 8 % 8 == reg && m % 8 == rm
  {
  }

  lemma RexFields(r: nat, b: nat)
    requires r < 2 && b < 2
    ensures var rex := 0x48 + 4 * r + b;
            0x40 <= rex < 0x50 && rex / 8 % 2 == 1 && rex / 4 % 2 == r && rex % 2 == b
  {
  }

  /** An instruction with REX.W and a ModR/M byte. */
  lemma DecodesRex(code: seq<Byte>, p: nat, r: nat, b: nat, mode: nat, reg: nat, rm: nat)
    requires p + 3 <= |code| && r < 2 && b < 2 && mode < 4 && reg < 8 && rm < 8
    requires code[p] == 0x48 + 4 * r + b && code[p + 2] == 0x40 * mode + 8 * reg + rm
    requires code[p + 1] == 0x89 || code[p + 1] == 0x8B || code[p + 1] == 0x83 || code[p + 1] == 0xFF
    ensures Decode(code, p) == DecodeFields(code, p + 1, mode, reg, rm, 1, r, b)
  {
    hide DecodeFields;
    RexFields(r, b);
    ModRMFields(mode, reg, rm);
  }

  /** An addition without a prefix. */
  lemma DecodesPlain(code: seq<Byte>, p: nat, mode: nat, reg: nat, rm: nat)
    requires p + 2 <= |code| && mode < 4 && reg < 8 && rm < 8
    requires code[p] == 0x01 && code[p + 1] == 0x40 * mode + 8 * reg + rm
    ensures Decode(code, p) == DecodeFields(code, p, mode, reg, rm, 0, 0, 0)
  {
    hide DecodeFields;
    ModRMFields(mode, reg, rm);
  }

  lemma DecodesMovReg(code: seq<Byte>, p: nat, s: nat, d: nat)
    requires s < 16 && d < 16 && p + 3 <= |code|
    requires code[p] == 0x48 + 4 * (s / 8) + d / 8 && code[p + 1] == 0x89 && code[p + 2] == 0xC0 + 8 * (s % 8) + d % 8
    ensures Decode(code, p) == Some(Decoded(IMovReg(d, s), p + 3))
  {
    DecodesRex(code, p, s / 8, d / 8, 3, s % 8, d % 8);
    assert s == s % 8 + 8 * (s / 8) && d == d % 8 + 8 * (d / 8);
  }

  lemma DecodesAdd(code: seq<Byte>, p: nat, l: nat, r: nat)
    requires l < 8 && r < 8 && p + 2 <= |code| && code[p..p + 2] == Encode(AddReg(l, r), 0)
    ensures Decode(code, p) == Some(Decoded(IAdd32(l, r), p + 2))
  {
    hide Decode;
    AddBytes(code, p, l, r);
    DecodesPlain(code, p, 3, r, l);
  }

  lemma AddBytes(code: seq<Byte>, p: nat, l: nat, r: nat)
    requires l < 16 && r < 16 && p + 2 <= |code| && code[p..p + 2] == Encode(AddReg(l, r), 0)
    ensures code[p] == 0x01 && code[p + 1] == AddModRM(l, r)
  {
    var bytes := code[p..p + 2];
    assert bytes[0] == code[p] && bytes[1] == code[p + 1];
  }

  lemma DecodesLoad(code: seq<Byte>, p: nat, addr: nat, d: nat)
    requires LoadMem(addr, d).Encodable() && p + 3 <= |code| && code[p..p + 3] == Encode(LoadMem(addr, d), 0)
    ensures Decode(code, p) == Some(Decoded(ILoad(d, addr), p + 3))
  {
    hide Decode;
    ThreeBytes(code, p);
    DecodesRex(code, p, 0, 0, 0, d, addr);
  }

  lemma DecodesStore(code: seq<Byte>, p: nat, s: nat, addr: nat)
    requires StoreMem(s, addr).Encodable() && p + 3 <= |code| && code[p..p + 3] == Encode(StoreMem(s, addr), 0)
    ensures Decode(code, p) == Some(Decoded(IStore(addr, s), p + 3))
  {
    hide Decode;
    ThreeBytes(code, p);
    DecodesRex(code, p, 0, 0, 0, s, addr);
  }

  lemma DecodesMove(code: seq<Byte>, p: nat, s: nat, d: nat)
    requires s < 16 && d < 16 && p + 3 <= |code| && code[p..p + 3] == Encode(MovReg(s, d), 0)
    ensures Decode(code, p) == Some(Decoded(IMovReg(d, s), p + 3))
  {
    hide Decode;
    ThreeBytes(code, p);
    DecodesMovReg(code, p, s, d);
  }

  lemma DecodesCall(code: seq<Byte>, p: nat)
    requires p + 3 <= |code| && code[p..p + 3] == Encode(CallRax, 0)
    ensures Decode(code, p) == Some(Decoded(ICall(RAX), p + 3))
  {
    hide Decode;
    ThreeBytes(code, p);
    DecodesRex(code, p, 0, 0, 3, 2, 0);
  }

  lemma ThreeBytes(code: seq<Byte>, p: nat)
    requires p + 3 <= |code|
    ensures var b := code[p..p + 3]; b[0] == code[p] && b[1] == code[p + 1] && b[2] == code[p + 2]
  {
  }

  lemma DecodesCmp(code: seq<Byte>, p: nat, r: nat)
    requires r < 8 && p + 4 <= |code| && code[p..p + 4] == Encode(CmpZero(r), 0)
    ensures Decode(code, p) == Some(Decoded(ICmpImm(r, 0), p + 4))
  {
    var bytes := code[p..p + 4];
    assert code[p] == bytes[0] && code[p + 1] == bytes[1] && code[p + 2] == bytes[2] && code[p + 3] == bytes[3];
    DecodesRex(code, p, 0, 0, 3, 7, r);
  }

  /** Wherever the bytes of an encodable instruction stand, the processor decodes that instruction. */
  lemma DecodesAt(code: seq<Byte>, p: nat, a: Asm, disp: int)
    requires a.Encodable() && p + a.Size() <= |code| && code[p..p + a.Size()] == Encode(a, disp)
    requires a.IsBranch() ==> IsInt32(disp)
    ensures Decode(code, p) == Some(Decoded(Meaning(a, disp), p + a.Size()))
  {
    if a.IsBranch() {
      DecodesAtBranch(code, p, a, disp);
    } else {
      assert Encode(a, disp) == Encode(a, 0) && Meaning(a, disp) == Meaning(a, 0);
      match a
      case MovImm(_, imm) => DecodesAtImm(code, p, a, imm);
      case CallHole(_) => DecodesAtImm(code, p, a, 0);
      case Return => assert code[p] == code[p..p + 1][0];
      case AddReg(l, r) => DecodesAdd(code, p, l, r);
      case CmpZero(r) => DecodesCmp(code, p, r);
      case MovReg(s, d) => DecodesMove(code, p, s, d);
      case LoadMem(addr, d) => DecodesLoad(code, p, addr, d);
      case StoreMem(s, addr) => DecodesStore(code, p, s, addr);
      case CallRax => DecodesCall(code, p);
    }
  }

  /** Encodings of the manual: MOV, ADD, CMP, CALL and RET on RAX, RCX, RBX, R8 and R9. */
  lemma ManualEncodings()
    ensures Decode([0x48, 0x89, 0xC3], 0) == Some(Decoded(IMovReg(3, RAX), 3))
    ensures Decode([0x4D, 0x89, 0xC8], 0) == Some(Decoded(IMovReg(8, 9), 3))
    ensures Decode([0x48, 0x8B, 0x0B], 0) == Some(Decoded(ILoad(1, 3), 3))
    ensures Decode([0x48, 0x89, 0x0B], 0) == Some(Decoded(IStore(3, 1), 3))
    ensures Decode([0x01, 0xC3], 0) == Some(Decoded(IAdd32(3, RAX), 2))
    ensures Decode([0x48, 0x83, 0xFB, 0x00], 0) == Some(Decoded(ICmpImm(3, 0), 4))
    ensures Decode([0x48, 0xFF, 0xD0], 0) == Some(Decoded(ICall(RAX), 3))
    ensures Decode([0xC3], 0) == Some(Decoded(IRet, 1))
  {
    hide Decode;
    DecodesRex([0x48, 0x89, 0xC3], 0, 0, 0, 3, 0, 3);
    DecodesRex([0x4D, 0x89, 0xC8], 0, 1, 1, 3, 1, 0);
    DecodesRex([0x48, 0x8B, 0x0B], 0, 0, 0, 0, 1, 3);
    DecodesRex([0x48, 0x89, 0x0B], 0, 0, 0, 0, 1, 3);
    DecodesPlain([0x01, 0xC3], 0, 3, 0, 3);
    DecodesRex([0x48, 0x83, 0xFB, 0x00], 0, 0, 0, 3, 7, 3);
    DecodesRex([0x48, 0xFF, 0xD0], 0, 0, 0, 3, 2, 0);
    ManualReturn();
  }

  lemma ManualReturn()
    ensures Decode([0xC3], 0) == Some(Decoded(IRet, 1))
  {
  }

  lemma FourBytes(b: seq<Byte>)
    requires |b| == 4
    ensures FromLE(b) == b[0] + 0x100 * b[1] + 0x1_0000 * b[2] + 0x100_0000 * b[3] as int
  {
    FromFour(b);
    assert b[4..] == [];
  }

  /** JZ and JMP with a 32-bit displacement, and MOV with a 64-bit immediate. */
  lemma ManualFields()
    ensures Decode([0x0F, 0x84, 0x10, 0x00, 0x00, 0x00], 0) == Some(Decoded(IJz(16), 6))
    ensures Decode([0xE9, 0xFB, 0xFF, 0xFF, 0xFF], 0) == Some(Decoded(IJmp(-5), 5))
    ensures Decode([0x48, 0xBB, 0x01, 0x00, 0x00, 0x00, 0x00, 0x00, 0x00, 0x80], 0) ==
            Some(Decoded(IMovImm(3, 0x8000_0000_0000_0001), 10))
  {
    hide Rel32, Imm64;
    FieldOf([0x0F, 0x84, 0x10, 0x00, 0x00, 0x00], 2, 0x10, 0x00);
    FieldOf([0xE9, 0xFB, 0xFF, 0xFF, 0xFF], 1, 0xFB, 0xFF);
    ImmediateOf([0x48, 0xBB, 0x01, 0x00, 0x00, 0x00, 0x00, 0x00, 0x00, 0x80]);
  }

  lemma FieldOf(code: seq<Byte>, p: nat, low: Byte, rest: Byte)
    requires p + 4 <= |code| && code[p] == low && code[p + 1] == code[p + 2] == code[p + 3] == rest
    requires rest == 0x00 || (rest == 0xFF && low >= 1)
    ensures Rel32(code, p) == if rest == 0 then low else low - 0x100
  {
    hide FromLE;
    FourBytes(code[p..p + 4]);
  }

  lemma ImmediateOf(code: seq<Byte>)
    requires |code| == 10 && code[2] == 0x01 && code[9] == 0x80 && forall k :: 3 <= k < 9 ==> code[k] == 0x00
    ensures Imm64(code, 2) == 0x8000_0000_0000_0001
  {
    hide FromLE;
    var b := code[2..10];
    FromFour(b);
    FourBytes(b[4..]);
  }

  // ----- codes the encoders cannot name -----

  /** No instruction at p, or another one than meant. */
  predicate Misread(code: seq<Byte>, p: nat, meant: Ins) {
    Decode(code, p).Some? ==> Decode(code, p).value.ins != meant
  }

  /** What the bytes of an instruction that the encoders cannot name mean; None for a form with SIB or RIP. */
  function Instead(a: Asm): Option<Ins>
    requires a.Codes() && !a.Encodable()
  {
    match a
    case MovImm(d, imm) => Some(IMovImm(d - 8, imm))
    case AddReg(l, r) => Some(IAdd32(l % 8, if l >= 8 && r % 2 == 0 then r % 8 + 1 else r % 8))
    case LoadMem(addr, d) => if addr % 8 == 4 || addr % 8 == 5 then None else Some(ILoad(d % 8, addr % 8))
    case StoreMem(s, addr) => if addr % 8 == 4 || addr % 8 == 5 then None else Some(IStore(addr % 8, s % 8))
    case CmpZero(r) => Some(ICmpImm(r - 8, 0))
  }

  lemma ImmInstead(code: seq<Byte>, p: nat, d: nat, imm: Word)
    requires 8 <= d < 16 && p + 10 <= |code| && code[p..p + 10] == Encode(MovImm(d, imm), 0)
    ensures Decode(code, p) == Some(Decoded(IMovImm(d - 8, imm), p + 10))
  {
    DecodesAtImm(code, p, MovImm(d - 8, imm), imm);
  }

  lemma AddInstead(code: seq<Byte>, p: nat, l: nat, r: nat)
    requires l < 16 && r < 16 && p + 2 <= |code| && code[p..p + 2] == Encode(AddReg(l, r), 0)
    ensures Decode(code, p) == Some(Decoded(IAdd32(l % 8, if l >= 8 && r % 2 == 0 then r % 8 + 1 else r % 8), p + 2))
  {
    hide Decode;
    AddBytes(code, p, l, r);
    DecodesPlain(code, p, 3, if l >= 8 && r % 2 == 0 then r % 8 + 1 else r % 8, l % 8);
  }

  lemma MemoryInstead(code: seq<Byte>, p: nat, a: Asm)
    requires (a.LoadMem? || a.StoreMem?) && a.Codes() && !a.Encodable()
    requires p + 3 <= |code| && code[p..p + 3] == Encode(a, 0)
    ensures Decode(code, p) == if Instead(a).None? then None else Some(Decoded(Instead(a).value, p + 3))
  {
    hide Decode;
    ThreeBytes(code, p);
    var reg, rm := if a.LoadMem? then a.dst else a.src, a.addr;
    DecodesRex(code, p, 0, 0, 0, reg % 8, rm % 8);
  }

  lemma CmpInstead(code: seq<Byte>, p: nat, r: nat)
    requires 8 <= r < 16 && p + 4 <= |code| && code[p..p + 4] == Encode(CmpZero(r), 0)
    ensures Decode(code, p) == Some(Decoded(ICmpImm(r - 8, 0), p + 4))
  {
    DecodesCmp(code, p, r - 8);
  }

  /** The exact meaning of what the encoders write for registers they cannot name. */
  lemma DecodesInstead(code: seq<Byte>, p: nat, a: Asm, disp: int)
    requires a.Codes() && !a.Encodable() && p + a.Size() <= |code| && code[p..p + a.Size()] == Encode(a, disp)
    ensures Decode(code, p) == if Instead(a).None? then None else Some(Decoded(Instead(a).value, p + a.Size()))
  {
    hide Decode;
    assert Encode(a, disp) == Encode(a, 0);
    match a
    case MovImm(d, imm) => ImmInstead(code, p, d, imm);
    case AddReg(l, r) => AddInstead(code, p, l, r);
    case LoadMem(_, _) => MemoryInstead(code, p, a);
    case StoreMem(_, _) => MemoryInstead(code, p, a);
    case CmpZero(r) => CmpInstead(code, p, r);
  }

  /**
    Among all register codes the processor decodes what the encoders were asked for exactly when
    the instruction is encodable: any other code names another register or another form.
  */
  lemma DecodesExactly(code: seq<Byte>, p: nat, a: Asm, disp: int)
    requires a.Codes() && p + a.Size() <= |code| && code[p..p + a.Size()] == Encode(a, disp)
    requires a.IsBranch() ==> IsInt32(disp)
    ensures a.Encodable() ==> Decode(code, p) == Some(Decoded(Meaning(a, disp), p + a.Size()))
    ensures !a.Encodable() ==> Misread(code, p, Meaning(a, disp))
  {
    hide Decode;
    if a.Encodable() {
      DecodesAt(code, p, a, disp);
    } else {
      DecodesInstead(code, p, a, disp);
    }
  }
}

/** The code generator as it runs: it appends bytes, updates the register table and then patches. */
module Gen {
  import opened Words
  import opened Ir
  import opened X86
  import opened Allocator
  import opened ByteWriter
  import opened Emission

  // ----- encoders, byte by byte -----

  method WriteMovRegInt64(w: Writer, dest: nat, value: Word) returns (immediate: nat)
    requires w.Valid()
    modifies w, w.data
    ensures w.Valid() && w.Contents() == old(w.Contents()) + Encode(MovImm(dest, value), 0)
    ensures immediate == |old(w.Contents())| + 2
    ensures w.data == old(w.data) || fresh(w.data)
  {
    var _ := w.Uint8(0x48);
    var _ := w.Uint8(0xB8 + dest % 8);
    immediate := w.Int64(value);
  }

  method WriteMovRegToReg(w: Writer, src: nat, dest: nat)
    requires w.Valid()
    modifies w, w.data
    ensures w.Valid() && w.Contents() == old(w.Contents()) + (if src == dest then [] else Encode(MovReg(src, dest), 0))
    ensures w.data == old(w.data) || fresh(w.data)
  {
    if src == dest {
      return;
    }
    var _ := w.Uint8(0x48 + 4 * (src / 8 % 2) + dest / 8 % 2);
    var _ := w.Uint8(0x89);
    var _ := w.Uint8(0xC0 + 8 * (src % 8) + dest % 8);
  }

  method WriteAddRegToReg(w: Writer, left: nat, right: nat)
    requires w.Valid()
    modifies w, w.data
    ensures w.Valid() && w.Contents() == old(w.Contents()) + Encode(AddReg(left, right), 0)
    ensures w.data == old(w.data) || fresh(w.data)
  {
    var _ := w.Uint8(0x01);
    var _ := w.Uint8(AddModRM(left % 16, right % 16));
  }

  method WriteMovMemToReg(w: Writer, addr: nat, dest: nat)
    requires w.Valid()
    modifies w, w.data
    ensures w.Valid() && w.Contents() == old(w.Contents()) + Encode(LoadMem(addr, dest), 0)
    ensures w.data == old(w.data) || fresh(w.data)
  {
    var _ := w.Uint8(0x48);
    var _ := w.Uint8(0x8B);
    var _ := w.Uint8(8 * (dest % 8) + addr % 8);
  }

  method WriteMovRegToMem(w: Writer, src: nat, addr: nat)
    requires w.Valid()
    modifies w, w.data
    ensures w.Valid() && w.Contents() == old(w.Contents()) + Encode(StoreMem(src, addr), 0)
    ensures w.data == old(w.data) || fresh(w.data)
  {
    var _ := w.Uint8(0x48);
    var _ := w.Uint8(0x89);
    var _ := w.Uint8(8 * (src % 8) + addr % 8);
  }

  method WriteJmp(w: Writer, block: nat) returns (field: nat)
    requires w.Valid()
    modifies w, w.data
    ensures w.Valid() && w.Contents() == old(w.Contents()) + Encode(JmpTo(block), 0)
    ensures field == |old(w.Contents())| + 1
    ensures w.data == old(w.data) || fresh(w.data)
  {
    var _ := w.Uint8(0xE9);
    field := w.Int32(0);
  }

  method WriteCondJmp(w: Writer, reg: nat, block: nat) returns (field: nat)
    requires w.Valid()
    modifies w, w.data
    ensures w.Valid()
    ensures w.Contents() == old(w.Contents()) + Encode(CmpZero(reg), 0) + Encode(JzTo(block), 0)
    ensures field == |old(w.Contents())| + 6
    ensures w.data == old(w.data) || fresh(w.data)
  {
    hide ToLE;
    WriteCmpZero(w, reg);
    var _ := w.Uint8(0x0F);
    var _ := w.Uint8(0x84);
    field := w.Int32(0);
  }

  method WriteCmpZero(w: Writer, reg: nat)
    requires w.Valid()
    modifies w, w.data
    ensures w.Valid() && w.Contents() == old(w.Contents()) + Encode(CmpZero(reg), 0)
    ensures w.data == old(w.data) || fresh(w.data)
  {
    var _ := w.Uint8(0x48);
    var _ := w.Uint8(0x83);
    var _ := w.Uint8(0xF8 + reg % 8);
    var _ := w.Uint8(0x00);
  }

  method WriteCallDirect(w: Writer, func: nat) returns (immediate: nat)
    requires w.Valid()
    modifies w, w.data
    ensures w.Valid() && w.Contents() == old(w.Contents()) + Encode(CallHole(func), 0) + Encode(CallRax, 0)
    ensures immediate == |old(w.Contents())| + 2
    ensures w.data == old(w.data) || fresh(w.data)
  {
    hide ToLE, AddModRM;
    immediate := WriteMovRegInt64(w, RAX, 0);
    assert w.Contents() == old(w.Contents()) + Encode(CallHole(func), 0);
    var _ := w.Uint8(0x48);
    var _ := w.Uint8(0xFF);
    var _ := w.Uint8(0xD0);
  }

  // ----- the generator object -----

  /** What one more instruction adds to the bytes and to the lists of fields. */
  lemma Appended(items: seq<Asm>, a: Asm)
    ensures Raw(items + [a]) == Raw(items) + Encode(a, 0)
    ensures Sites(items + [a]) == Sites(items) + (if a.IsBranch() then [Site(SizeOf(items) + a.Hole(), a.block)] else [])
    ensures CallSites(items + [a]) == CallSites(items) + (if a.CallHole? then [CallSite(SizeOf(items) + 2, a.func)] else [])
    ensures SizeOf(items + [a]) == SizeOf(items) + a.Size()
  {
    assert (items + [a])[..|items|] == items;
  }

  class Generator {
    const code: Writer
    const allocator: RegisterAllocator
    var blockOffsetsToSet: seq<Site>
    var directCalls: seq<CallSite>
    var codeOffsets: seq<nat>
    /** The instructions whose bytes have been written. */
    ghost var items: seq<Asm>

    ghost predicate Valid()
      reads this, code, code.data
    {
      && code.Valid()
      && code.Contents() == Raw(items)
      && blockOffsetsToSet == Sites(items)
      && directCalls == CallSites(items)
    }

    constructor ()
      ensures Valid() && items == [] && codeOffsets == []
      ensures allocator.registers[..] == InitTable()
      ensures fresh(code) && fresh(code.data) && fresh(allocator) && fresh(allocator.registers)
    {
      code := new Writer();
      allocator := new RegisterAllocator();
      blockOffsetsToSet, directCalls, codeOffsets, items := [], [], [], [];
    }

    /** Records instructions just written that are neither branches nor direct calls. */
    ghost method Record(a: Asm)
      requires !a.IsBranch() && !a.CallHole?
      requires blockOffsetsToSet == Sites(items) && directCalls == CallSites(items)
      modifies this`items
      ensures items == old(items) + [a] && Raw(items) == Raw(old(items)) + Encode(a, 0)
      ensures blockOffsetsToSet == Sites(items) && directCalls == CallSites(items)
    {
      items := items + [a];
    }

    method EmitConst(imm: Word, id: nat)
      requires Valid()
      modifies this`items, code, code.data, allocator.registers
      ensures Valid() && (code.data == old(code.data) || fresh(code.data))
      ensures var t := old(allocator.registers[..]);
              items == old(items) + [MovImm(AllocatedCode(t), imm)] && allocator.registers[..] == Allocate(t, id)
    {
      var reg := allocator.AllocateRegister(id);
      var _ := WriteMovRegInt64(code, reg, imm);
      Record(MovImm(reg, imm));
    }

    method EmitAdd(left: nat, right: nat, id: nat)
      requires Valid()
      modifies this`items, code, code.data, allocator.registers
      ensures Valid() && (code.data == old(code.data) || fresh(code.data))
      ensures var t := old(allocator.registers[..]);
              && items == old(items) + [AddReg(Lookup(t, left), Lookup(t, right))]
              && allocator.registers[..] == Replace(t, Some(left), Some(id))
    {
      var resultReg := allocator.RegisterOf(left);
      var rightReg := allocator.RegisterOf(right);
      var _ := allocator.SwitchValue(left, id);
      WriteAddRegToReg(code, resultReg, rightReg);
      Record(AddReg(resultReg, rightReg));
    }

    method EmitLoad(addr: nat, id: nat)
      requires Valid()
      modifies this`items, code, code.data, allocator.registers
      ensures Valid() && (code.data == old(code.data) || fresh(code.data))
      ensures var t := old(allocator.registers[..]);
              && items == old(items) + [LoadMem(Lookup(Allocate(t, id), addr), AllocatedCode(t))]
              && allocator.registers[..] == Allocate(t, id)
    {
      var reg := allocator.AllocateRegister(id);
      var from := allocator.RegisterOf(addr);
      WriteMovMemToReg(code, from, reg);
      Record(LoadMem(from, reg));
    }

    method EmitStore(addr: nat, value: nat)
      requires Valid()
      modifies this`items, code, code.data
      ensures Valid() && (code.data == old(code.data) || fresh(code.data))
      ensures var t := allocator.registers[..];
              items == old(items) + [StoreMem(Lookup(t, value), Lookup(t, addr))]
    {
      var src := allocator.RegisterOf(value);
      var to := allocator.RegisterOf(addr);
      WriteMovRegToMem(code, src, to);
      Record(StoreMem(src, to));
    }

    method EmitJump(block: nat)
      requires Valid()
      modifies this`items, this`blockOffsetsToSet, code, code.data
      ensures Valid() && items == old(items) + [JmpTo(block)]
      ensures code.data == old(code.data) || fresh(code.data)
    {
      hide Raw, Sites, CallSites, Encode;
      var field := WriteJmp(code, block);
      blockOffsetsToSet := blockOffsetsToSet + [Site(field, block)];
      Appended(items, JmpTo(block));
      items := items + [JmpTo(block)];
    }

    method EmitCondJump(cond: nat, onTrue: nat, onFalse: nat)
      requires Valid()
      modifies this`items, this`blockOffsetsToSet, code, code.data
      ensures Valid() && (code.data == old(code.data) || fresh(code.data))
      ensures items == old(items) + [CmpZero(Lookup(allocator.registers[..], cond)), JzTo(onFalse), JmpTo(onTrue)]
    {
      hide Encode;
      hide Raw, Sites, CallSites, Encode;
      ghost var before := items;
      var reg := allocator.RegisterOf(cond);
      var field := WriteCondJmp(code, reg, onFalse);
      Appended(before, CmpZero(reg));
      Appended(before + [CmpZero(reg)], JzTo(onFalse));
      blockOffsetsToSet := blockOffsetsToSet + [Site(field, onFalse)];
      items := before + [CmpZero(reg)] + [JzTo(onFalse)];
      EmitJump(onTrue);
    }

    method EmitMove(src: nat, dst: nat)
      requires Valid()
      modifies this`items, code, code.data
      ensures Valid() && items == old(items) + Move(src, dst)
      ensures code.data == old(code.data) || fresh(code.data)
    {
      WriteMovRegToReg(code, src, dst);
      if src != dst {
        Record(MovReg(src, dst));
      }
    }

    method EmitReturn()
      requires Valid()
      modifies this`items, code, code.data
      ensures Valid() && items == old(items) + [Asm.Return]
      ensures code.data == old(code.data) || fresh(code.data)
    {
      var _ := code.Uint8(0xC3);
      Record(Asm.Return);
    }

    method EmitCall(func: nat, id: nat, voidCall: bool)
      requires Valid()
      modifies this`items, this`directCalls, code, code.data, allocator.registers
      ensures Valid() && (code.data == old(code.data) || fresh(code.data))
      ensures var t := old(allocator.registers[..]);
              && items == old(items) + [CallHole(func), CallRax] + (if voidCall then [] else Move(RAX, AllocatedCode(t)))
              && allocator.registers[..] == if voidCall then t else Allocate(t, id)
    {
      hide Raw, Sites, CallSites, Encode;
      ghost var before := items;
      var immediate := WriteCallDirect(code, func);
      Appended(before, CallHole(func));
      Appended(before + [CallHole(func)], CallRax);
      directCalls := directCalls + [CallSite(immediate, func)];
      items := before + [CallHole(func)] + [CallRax];
      if !voidCall {
        var reg := allocator.AllocateRegister(id);
        EmitMove(RAX, reg);
      }
    }

    /** The switch over one instruction's opcode. */
    method JitInstr(i: Instr, voidCall: bool)
      requires Valid() && IntegralInstr(i)
      modifies this`items, this`blockOffsetsToSet, this`directCalls, code, code.data, allocator.registers
      ensures Valid() && (code.data == old(code.data) || fresh(code.data))
      ensures var e := EmitInstr(old(allocator.registers[..]), i, voidCall);
              items == old(items) + e.items && allocator.registers[..] == e.table
    {
      hide Raw, Sites, CallSites, Allocate, Replace, Lookup, First, AllocatedCode;
      match i {
        case Const(kind, imm, g) =>
          if !kind.ConstI16? && !kind.ConstI8? {
            EmitConst(imm, g.id);
          }
        case Op(op, l, r, g) =>
          if op == Add {
            EmitAdd(l.id, r.id, g.id);
          }
        case Not(_, _) =>
        case Load(a, _, g) => EmitLoad(a.id, g.id);
        case Store(a, v) => EmitStore(a.id, v.id);
        case Br(b) => EmitJump(b);
        case CondBr(c, b, e) => EmitCondJump(c.id, b, e);
        case CallPtr(_, _, _) =>
        case CallFunc(f, _, g) => EmitCall(f, g.id, voidCall);
        case Ret(v) =>
          var reg := allocator.RegisterOf(v.id);
          EmitMove(reg, RAX);
          EmitReturn();
        case RetVoid => EmitReturn();
      }
    }

    /** The whole function: one pass over the blocks. */
    method EmitBlocks(f: Source)
      requires Integral(f) && Valid() && items == [] && codeOffsets == [] && allocator.registers[..] == InitTable()
      modifies this, code, code.data, allocator.registers
      ensures Valid() && items == AllItems(f) && codeOffsets == BlockOffsets(f, |f.blocks|)
      ensures allocator.registers[..] == Emit(f, |Flat(f.blocks)|).table
      ensures code.data == old(code.data) || fresh(code.data)
    {
      allocator.AssignArguments(f.args);
      for b := 0 to |f.blocks|
        invariant Valid() && (code.data == old(code.data) || fresh(code.data))
        invariant FlatStart(f.blocks, b) <= |Flat(f.blocks)|
        invariant Emitted(items, allocator.registers[..]) == Emit(f, FlatStart(f.blocks, b))
        invariant codeOffsets == BlockOffsets(f, b)
      {
        codeOffsets := codeOffsets + [code.currentIndex];
        EmitBlock(f, b);
      }
      assert f.blocks[..|f.blocks|] == f.blocks;
    }

    method EmitBlock(f: Source, b: nat)
      requires Integral(f) && Valid() && b < |f.blocks| && FlatStart(f.blocks, b) <= |Flat(f.blocks)|
      requires Emitted(items, allocator.registers[..]) == Emit(f, FlatStart(f.blocks, b))
      modifies this`items, this`blockOffsetsToSet, this`directCalls, code, code.data, allocator.registers
      ensures Valid() && (code.data == old(code.data) || fresh(code.data))
      ensures FlatStart(f.blocks, b + 1) <= |Flat(f.blocks)|
      ensures Emitted(items, allocator.registers[..]) == Emit(f, FlatStart(f.blocks, b + 1))
    {
      hide Emit, FlatStart, Flat;
      FlatAt(f.blocks, b, 0);
      for j := 0 to |f.blocks[b]|
        invariant Valid() && (code.data == old(code.data) || fresh(code.data))
        invariant FlatStart(f.blocks, b) + j <= |Flat(f.blocks)|
        invariant Emitted(items, allocator.registers[..]) == Emit(f, FlatStart(f.blocks, b) + j)
      {
        FlatAt(f.blocks, b, j);
        EmitPosition(f, FlatStart(f.blocks, b) + j, f.blocks[b][j]);
      }
      FlatAt(f.blocks, b, |f.blocks[b]|);
    }

    method EmitPosition(f: Source, p: nat, i: Instr)
      requires Valid() && p < |Flat(f.blocks)| && Flat(f.blocks)[p] == i && IntegralInstr(i)
      requires Emitted(items, allocator.registers[..]) == Emit(f, p)
      modifies this`items, this`blockOffsetsToSet, this`directCalls, code, code.data, allocator.registers
      ensures Valid() && (code.data == old(code.data) || fresh(code.data))
      ensures Emitted(items, allocator.registers[..]) == Emit(f, p + 1)
    {
      JitInstr(i, f.voidCall(p));
    }

    /** The patch loop: each difference is taken in 64 bits and stored as its low 32 bits. */
    method PatchBranches()
      requires Valid()
      modifies code.data
      ensures code.Valid() && code.Contents() == Resolved(items, codeOffsets)
    {
      hide Raw, Resolved, Sites, ToLE;
      PatchingResolves(items, codeOffsets);
      ghost var sites := Sites(items);
      for k := 0 to |blockOffsetsToSet|
        invariant code.Valid() && code.currentIndex == SizeOf(items)
        invariant SitesFit(sites[..k], |Raw(items)|)
        invariant code.Contents() == PatchAll(Raw(items), sites[..k], codeOffsets)
      {
        var s := blockOffsetsToSet[k];
        var difference := Wrap(TargetOf(codeOffsets, s.block) - s.offset - 4);
        TruncatedDisplacement(Displacement(codeOffsets, s));
        assert sites[..k + 1][..k] == sites[..k];
        code.Int32At(SignedAt(Bits32, difference), s.offset);
      }
      assert sites[..|sites|] == sites;
    }

    /** Emission followed by patching gives the resolved code, block offsets and call sites. */
    method JitFunc(f: Source)
      requires Integral(f) && Valid() && items == [] && codeOffsets == [] && allocator.registers[..] == InitTable()
      modifies this, code, code.data, allocator.registers
      ensures code.Valid() && code.Contents() == CodeOf(f)
      ensures code.data == old(code.data) || fresh(code.data)
      ensures codeOffsets == BlockOffsets(f, |f.blocks|) && directCalls == CallSites(AllItems(f))
    {
      EmitBlocks(f);
      PatchBranches();
    }
  }

  lemma TruncatedDisplacement(d: int)
    ensures ToLE(4, SignedAt(Bits32, Wrap(d))) == ToLE(4, d)
  {
    WrapAgrees(Bits32, d);
    Pow256Values();
    ModShift(Wrap(d), W32, 0);
    SignedKeepsLow(Wrap(d));
    SameLE(4, SignedAt(Bits32, Wrap(d)), d);
  }

  lemma SignedKeepsLow(x: int)
    ensures SignedAt(Bits32, x) % W32 == x % W32
  {
    ModShift(x % W32, W32, -1);
  }
}

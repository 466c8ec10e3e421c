/** The intermediate representation both engines consume. */
module Ir {
  import opened Words

  datatype DataType = Void | I64 | I32 | I16 | I8 | F64 | F32 | Ptr {
    predicate IsDecimal() {
      F64? || F32?
    }
  }

  /** A value handle: its id is its register slot. */
  datatype Value = Value(id: nat, ty: DataType)

  function I64Value(id: nat): Value {
    Value(id, I64)
  }

  datatype ConstKind = ConstI64 | ConstI32 | ConstI16 | ConstI8 | ConstPtr {
    function Determines(): Width {
      match this
      case ConstI64 => Bits64
      case ConstI32 => Bits32
      case ConstI16 => Bits16
      case ConstI8 => Bits8
      case ConstPtr => Bits64
    }
  }

  datatype BinOp =
    Add | Sub | Mul | Div | IDiv | Eq | Diff | Larger | LargerEq | Smaller | SmallerEq
  {
    predicate IsCompare() {
      Eq? || Diff? || Larger? || LargerEq? || Smaller? || SmallerEq?
    }
    predicate IsDivide() {
      Div? || IDiv?
    }
  }

  /** Block operands are indices into the function's blocks, functions are indices into the module. */
  datatype Instr =
    | Const(kind: ConstKind, imm: Word, gen: Value)
    | Op(op: BinOp, left: Value, right: Value, gen: Value)
    | Not(arg: Value, gen: Value)
    | Load(addr: Value, ty: DataType, gen: Value)
    | Store(addr: Value, stored: Value)
    | Br(target: nat)
    | CondBr(cond: Value, onTrue: nat, onFalse: nat)
    | CallPtr(callee: Value, args: seq<Value>, gen: Value)
    | CallFunc(func: nat, args: seq<Value>, gen: Value)
    | Ret(result: Value)
    | RetVoid
  {
    predicate IsData() {
      Const? || Op? || Not? || Load? || Store? || CallPtr?
    }

    predicate IsTerminator() {
      Br? || CondBr? || Ret? || RetVoid?
    }

    predicate HasGen() {
      Const? || Op? || Not? || Load? || CallPtr? || CallFunc?
    }
  }

  datatype Func = Func(args: seq<DataType>, ret: DataType, blocks: seq<seq<Instr>>, values: seq<Value>)

  type Module = seq<Func>

  predicate At(m: Module, func: nat, block: nat, index: nat) {
    func < |m| && block < |m[func].blocks| && index < |m[func].blocks[block]|
  }

  function InstrAt(m: Module, func: nat, block: nat, index: nat): Instr
    requires At(m, func, block, index)
  {
    m[func].blocks[block][index]
  }

  /** The ids a data instruction reads from the registers, in the order the interpreter reads them. */
  function DataUses(i: Instr): seq<nat>
    requires i.IsData()
  {
    match i
    case Const(_, _, _) => []
    case Op(_, l, r, _) => [l.id, r.id]
    case Not(a, _) => [a.id]
    case Load(a, _, _) => [a.id]
    case Store(a, v) => [a.id, v.id]
    case CallPtr(_, _, _) => []
  }

  function Ids(vs: seq<Value>): (ids: seq<nat>)
    ensures |ids| == |vs| && forall k :: 0 <= k < |vs| ==> ids[k] == vs[k].id
  {
    seq(|vs|, k requires 0 <= k < |vs| => vs[k].id)
  }

  /** The slot that i writes is one of f's values. */
  predicate ResultFits(f: Func, i: Instr) {
    i.HasGen() ==> i.gen.id < |f.values|
  }

  /** Every register the interpreter reads or writes for i is one of f's values. */
  predicate OwnOperands(f: Func, i: Instr) {
    && ResultFits(f, i)
    && match i
       case CondBr(c, _, _) => c.id < |f.values|
       case Ret(v) => v.id < |f.values|
       case CallFunc(_, args, _) => forall k :: 0 <= k < |args| ==> args[k].id < |f.values|
       case Br(_) => true
       case RetVoid => true
       case _ => i.IsData() && forall k :: 0 <= k < |DataUses(i)| ==> DataUses(i)[k] < |f.values|
  }

  ghost predicate OperandsInside(f: Func) {
    forall b: nat, j: nat :: b < |f.blocks| && j < |f.blocks[b]| ==> OwnOperands(f, f.blocks[b][j])
  }
}

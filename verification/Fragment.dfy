/**
  Conditions a caller can check by reading a function once, under which the generated code is
  known to match the interpreter: at most five registers, definitions before uses on every path and
  in emission order, and a left operand of ADD defined earlier in its block and not used afterwards.
*/
module Fragment {
  import opened Words
  import opened Ir
  import opened X86
  import opened Allocator
  import opened Emission
  import opened RegisterPass
  import opened Definite
  import opened Simulation
  import opened JitCorrectness

  predicate Reads(i: Instr, v: nat) {
    match i
    case Op(_, l, r, _) => v == l.id || v == r.id
    case CondBr(c, _, _) => v == c.id
    case Ret(r) => v == r.id
    case _ => false
  }

  predicate Simple(i: Instr) {
    match i
    case Const(kind, imm, _) =>
      !kind.ConstI16? && !kind.ConstI8? && (kind.ConstI32? ==> imm == Wrap(SignedAt(Bits32, imm)))
    case Op(op, _, _, _) => op == Add
    case Br(_) => true
    case CondBr(_, _, _) => true
    case Ret(_) => true
    case _ => false
  }

  /** The left operand of an ADD at p is generated earlier in the same block and never read again. */
  ghost predicate LeftIsLocal(f: Source, p: nat) {
    p < Len(f) && InsAt(f, p).Op? ==>
      && (exists d :: 0 <= d < p && Generates(f, d, InsAt(f, p).left.id) && BlockOf(f, d) == BlockOf(f, p))
      && (forall q :: p < q < Len(f) ==> !Reads(InsAt(f, q), InsAt(f, p).left.id))
  }

  function BlockIn(blocks: seq<seq<Instr>>, p: nat): (b: nat)
    requires p < |Flat(blocks)|
    ensures b < |blocks|
    decreases |blocks|
  {
    var n := |blocks| - 1;
    if p >= |Flat(blocks[..n])| then n else BlockIn(blocks[..n], p)
  }

  /** The block of a position; of no meaning beyond the last one. */
  function BlockOf(f: Source, p: nat): nat {
    if p < Len(f) then BlockIn(f.blocks, p) else 0
  }

  ghost predicate PathsDefine(f: Source, entries: seq<set<nat>>, b: nat, j: nat)
    requires |entries| == |f.blocks| && b < |f.blocks| && j < |f.blocks[b]|
  {
    var i := f.blocks[b][j];
    var defined := DefinedAfter(entries[b], f.blocks[b], j);
    && (forall v: nat :: Reads(i, v) ==> v in defined)
    && (i.Br? ==> i.target < |entries| && entries[i.target] <= defined)
    && (i.CondBr? ==> i.onTrue < |entries| && entries[i.onTrue] <= defined
                      && i.onFalse < |entries| && entries[i.onFalse] <= defined)
  }

  /** What the fragment asks of the text of a function, apart from each value being generated once. */
  ghost predicate FragmentText(f: Source, entries: seq<set<nat>>) {
    && |entries| == |f.blocks| && |f.blocks| > 0 && Integral(f)
    && (forall p :: 0 <= p < Len(f) ==> Simple(InsAt(f, p)))
    // a block has one terminator, at its end
    && (forall b: nat, j: nat :: b < |f.blocks| && j < |f.blocks[b]| ==>
          (f.blocks[b][j].IsTerminator() <==> j == |f.blocks[b]| - 1))
    // definitions before uses, in emission order and on every path
    && (forall p, v: nat :: 0 <= p < Len(f) && Reads(InsAt(f, p), v) ==> Known(f, v, p))
    && (forall v :: v in entries[0] ==> v < f.args)
    && (forall b: nat, j: nat :: b < |f.blocks| && j < |f.blocks[b]| ==> PathsDefine(f, entries, b, j))
    && (forall p: nat :: LeftIsLocal(f, p))
    // five registers
    && f.args <= 2 && f.args + Allocations(f, Len(f)) <= 5
    && Len(f) < 0x800_0000
  }

  ghost predicate InFragment(f: Source, entries: seq<set<nat>>) {
    FragmentText(f, entries) && SingleAssignment(f)
  }

  // ----- positions and blocks -----

  lemma {:induction false} BlockInAt(blocks: seq<seq<Instr>>, b: nat, j: nat)
    requires b < |blocks| && j < |blocks[b]|
    ensures FlatStart(blocks, b) + j < |Flat(blocks)|
    ensures BlockIn(blocks, FlatStart(blocks, b) + j) == b
    decreases |blocks|
  {
    FlatAt(blocks, b, j);
    var n := |blocks| - 1;
    if b < n {
      BlockInAt(blocks[..n], b, j);
      assert blocks[..n][..b] == blocks[..b];
    }
  }

  lemma BlockOfPosition(f: Source, b: nat, j: nat)
    requires b < |f.blocks| && j < |f.blocks[b]|
    ensures PositionOf(f, b, j) < Len(f) && InsAt(f, PositionOf(f, b, j)) == f.blocks[b][j]
    ensures BlockOf(f, PositionOf(f, b, j)) == b
  {
    FlatAt(f.blocks, b, j);
    BlockInAt(f.blocks, b, j);
  }

  /** A position of block b is its start plus an index. */
  lemma {:induction false} PositionInBlock(blocks: seq<seq<Instr>>, p: nat)
    requires p < |Flat(blocks)|
    ensures var b := BlockIn(blocks, p); FlatStart(blocks, b) <= p < FlatStart(blocks, b) + |blocks[b]|
    decreases |blocks|
  {
    var n := |blocks| - 1;
    if p < |Flat(blocks[..n])| {
      PositionInBlock(blocks[..n], p);
      var b := BlockIn(blocks[..n], p);
      assert blocks[..n][..b] == blocks[..b];
    }
  }

  lemma {:induction false} StartsAscend(blocks: seq<seq<Instr>>, b: nat, c: nat)
    requires b <= c <= |blocks|
    ensures FlatStart(blocks, b) <= FlatStart(blocks, c)
    decreases c - b
  {
    if b < c {
      StartsAscend(blocks, b, c - 1);
      assert blocks[..c][..c - 1] == blocks[..c - 1];
    }
  }

  /** Earlier positions lie in the same or an earlier block. */
  lemma BlocksAscend(f: Source, p: nat, q: nat)
    requires p <= q < Len(f)
    ensures BlockOf(f, p) <= BlockOf(f, q)
  {
    PositionInBlock(f.blocks, p);
    PositionInBlock(f.blocks, q);
    var b, c := BlockOf(f, p), BlockOf(f, q);
    if c < b {
      StartsAscend(f.blocks, c + 1, b);
      FlatAt(f.blocks, c, |f.blocks[c]|);
    }
  }

  // ----- slots and blocks -----

  lemma FragmentFits(f: Source, entries: seq<set<nat>>)
    requires InFragment(f, entries)
    ensures FitsIn(f, 5)
  {
  }

  /** The holder of a slot only ever passes to a value of the same block. */
  ghost predicate SameOrigin(f: Source, u: nat, w: nat) {
    u == w || exists d, e :: 0 <= d && 0 <= e && Generates(f, d, u) && Generates(f, e, w) && BlockOf(f, d) == BlockOf(f, e)
  }

  lemma SlotPassesOn(f: Source, entries: seq<set<nat>>, p: nat, k: nat)
    requires InFragment(f, entries) && p < Len(f) && k < SLOTS
    requires |TableBefore(f, p)| == SLOTS == |TableBefore(f, p + 1)| && TableBefore(f, p)[k].holder.Some?
    ensures TableBefore(f, p + 1)[k].holder.Some?
    ensures SameOrigin(f, TableBefore(f, p)[k].holder.value, TableBefore(f, p + 1)[k].holder.value)
  {
    FragmentFits(f, entries);
    AlwaysOrderly(f, p, 5);
    NextTable(f, p);
    var t, i := TableBefore(f, p), InsAt(f, p);
    if i.Op? && First(t, Some(i.left.id)) == k {
      assert LeftIsLocal(f, p);
      assert Generates(f, p, i.gen.id);
    }
  }

  lemma {:induction false} SlotOrigin(f: Source, entries: seq<set<nat>>, p: nat, q: nat, k: nat)
    requires InFragment(f, entries) && p <= q <= Len(f) && k < SLOTS
    requires |TableBefore(f, p)| == SLOTS && TableBefore(f, p)[k].holder.Some?
    ensures |TableBefore(f, q)| == SLOTS && TableBefore(f, q)[k].holder.Some?
    ensures SameOrigin(f, TableBefore(f, p)[k].holder.value, TableBefore(f, q)[k].holder.value)
    decreases q - p
  {
    hide SlotCode, Emit;
    FragmentFits(f, entries);
    AlwaysOrderly(f, q, 5);
    if p < q {
      AlwaysOrderly(f, q - 1, 5);
      SlotOrigin(f, entries, p, q - 1, k);
      SlotPassesOn(f, entries, q - 1, k);
      OriginsChain(f, TableBefore(f, p)[k].holder.value, TableBefore(f, q - 1)[k].holder.value,
                   TableBefore(f, q)[k].holder.value);
    }
  }

  lemma OriginsChain(f: Source, u: nat, v: nat, w: nat)
    requires SingleAssignment(f) && SameOrigin(f, u, v) && SameOrigin(f, v, w)
    ensures SameOrigin(f, u, w)
  {
    if u != v && v != w {
      var d, e :| 0 <= d && 0 <= e && Generates(f, d, u) && Generates(f, e, v) && BlockOf(f, d) == BlockOf(f, e);
      var e', g :| 0 <= e' && 0 <= g && Generates(f, e', v) && Generates(f, g, w) && BlockOf(f, e') == BlockOf(f, g);
      assert e == e';
    }
  }

  // ----- values in registers -----

  ghost predicate EverConsumed(f: Source, v: nat) {
    exists q :: 0 <= q < Len(f) && Consumes(f, q, v)
  }

  lemma ArgsHeldAtEntry(f: Source, v: nat)
    requires f.args <= 4 && v < f.args
    ensures Held(TableBefore(f, 0), v) && Lookup(TableBefore(f, 0), v) == ArgCode(v)
  {
    ArgInRegister(f.args, v);
  }

  /** Every position of the fragment that gives a result finds the slot it replaces. */
  lemma ResultPlaced(f: Source, entries: seq<set<nat>>, p: nat)
    requires InFragment(f, entries) && p < Len(f) && InsAt(f, p).HasGen()
    requires InsAt(f, p).Op? ==> Held(TableBefore(f, p), InsAt(f, p).left.id)
    ensures GivesRegister(InsAt(f, p), f.voidCall(p)) && First(TableBefore(f, p), Replaced(InsAt(f, p))) < 5
    ensures var i := InsAt(f, p);
            && Held(TableBefore(f, p + 1), i.gen.id)
            && Lookup(TableBefore(f, p + 1), i.gen.id) ==
               (if i.Op? then Lookup(TableBefore(f, p), i.left.id) else AllocatedCode(TableBefore(f, p)))
  {
    FragmentFits(f, entries);
    AlwaysOrderly(f, p, 5);
    NextTable(f, p);
    ResultIsNew(f, p, 5);
    var t, i := TableBefore(f, p), InsAt(f, p);
    assert Simple(i);
    if i.Const? {
      FitsBefore(f, p + 1, 5);
      RoomToAllocate(f, p, 5);
    }
    ReplaceKeeps(t, Replaced(i), i.gen.id);
  }

  /** Known values not taken over yet are in the table. */
  lemma {:induction false} KnownIsHeld(f: Source, entries: seq<set<nat>>, p: nat, v: nat)
    requires InFragment(f, entries) && p <= Len(f) && Known(f, v, p)
    requires forall q :: 0 <= q < p ==> !Consumes(f, q, v)
    ensures Held(TableBefore(f, p), v)
    decreases p, 0
  {
    FragmentFits(f, entries);
    if p == 0 {
      ArgsHeldAtEntry(f, v);
    } else if Generates(f, p - 1, v) {
      if InsAt(f, p - 1).Op? {
        LeftIsHeld(f, entries, p - 1);
      }
      ResultPlaced(f, entries, p - 1);
    } else {
      KnownIsHeld(f, entries, p - 1, v);
      KeepsRegister(f, p - 1, 5, v);
    }
  }

  /** The left operand of an ADD is still in the table: only that ADD takes it over. */
  lemma {:induction false} LeftIsHeld(f: Source, entries: seq<set<nat>>, p: nat)
    requires InFragment(f, entries) && p < Len(f) && InsAt(f, p).Op?
    ensures Held(TableBefore(f, p), InsAt(f, p).left.id)
    decreases p, 1
  {
    var v := InsAt(f, p).left.id;
    assert Reads(InsAt(f, p), v);
    assert Known(f, v, p);
    forall q | 0 <= q < p
      ensures !Consumes(f, q, v)
    {
      assert LeftIsLocal(f, q);
    }
    KnownIsHeld(f, entries, p, v);
  }

  /** A value is read only while it is in the table, in one of the first five slots. */
  lemma ReadIsHeld(f: Source, entries: seq<set<nat>>, p: nat, v: nat)
    requires InFragment(f, entries) && p < Len(f) && Reads(InsAt(f, p), v)
    ensures Held(TableBefore(f, p), v) && Lookup(TableBefore(f, p), v) < 8
    ensures forall q :: 0 <= q < p ==> !Consumes(f, q, v)
  {
    forall q | 0 <= q < p
      ensures !Consumes(f, q, v)
    {
      assert LeftIsLocal(f, q);
    }
    KnownIsHeld(f, entries, p, v);
    FragmentFits(f, entries);
    AlwaysOrderly(f, p, 5);
  }

  lemma ConstFitsLow(f: Source, entries: seq<set<nat>>, p: nat)
    requires InFragment(f, entries) && p < Len(f) && InsAt(f, p).Const?
    ensures AllocatedCode(TableBefore(f, p)) < 8
  {
    assert Simple(InsAt(f, p));
    FragmentFits(f, entries);
    AlwaysOrderly(f, p, 5);
    FitsBefore(f, p + 1, 5);
    RoomToAllocate(f, p, 5);
  }

  // ----- the certificate -----

  function FormAt(i: Instr): Form {
    if i.Op? then Zext else if i.Const? && i.kind.ConstI32? then Sext else Exact
  }

  ghost function FormOf(f: Source, v: nat): Form {
    if exists d: nat :: Generates(f, d, v) then
      var d: nat :| Generates(f, d, v);
      FormAt(InsAt(f, d))
    else Exact
  }

  lemma FormOfGenerated(f: Source, d: nat, v: nat)
    requires SingleAssignment(f) && Generates(f, d, v)
    ensures FormOf(f, v) == FormAt(InsAt(f, d))
  {
  }

  /** Values that no ADD takes over stay in one register to the end. */
  ghost predicate Settled(f: Source, v: nat) {
    Known(f, v, Len(f)) && !EverConsumed(f, v)
  }

  ghost function Home(f: Source, v: nat): nat {
    Lookup(TableBefore(f, Len(f)), v)
  }

  ghost function LiveAtEntry(f: Source, defined: set<nat>): Places {
    map v | v in defined && Settled(f, v) :: Place(FormOf(f, v), Home(f, v))
  }

  ghost function LiveOf(f: Source, entries: seq<set<nat>>): seq<Places> {
    seq(|entries|, b requires 0 <= b < |entries| => LiveAtEntry(f, entries[b]))
  }

  lemma SettledAtHome(f: Source, entries: seq<set<nat>>, p: nat, v: nat)
    requires InFragment(f, entries) && p <= Len(f) && Held(TableBefore(f, p), v) && !EverConsumed(f, v)
    ensures Lookup(TableBefore(f, p), v) == Home(f, v)
  {
    FragmentFits(f, entries);
    KeepsRegisterUntilConsumed(f, p, Len(f), 5, v);
  }

  ghost predicate DefinedOutside(f: Source, b: nat, v: nat) {
    forall d :: 0 <= d && Generates(f, d, v) ==> BlockOf(f, d) != b
  }

  /** A result in one block never lands in the home of a settled value of another block. */
  lemma ResultAvoidsHome(f: Source, entries: seq<set<nat>>, p: nat, v: nat)
    requires InFragment(f, entries) && p < Len(f) && InsAt(f, p).HasGen()
    requires Settled(f, v) && DefinedOutside(f, BlockOf(f, p), v)
    requires Held(TableBefore(f, p + 1), InsAt(f, p).gen.id)
    ensures InsAt(f, p).gen.id != v && Lookup(TableBefore(f, p + 1), InsAt(f, p).gen.id) != Home(f, v)
  {
    var g := InsAt(f, p).gen.id;
    assert Generates(f, p, g);
    FragmentFits(f, entries);
    AlwaysOrderly(f, p + 1, 5);
    AlwaysOrderly(f, Len(f), 5);
    KnownIsHeld(f, entries, Len(f), v);
    var k := First(TableBefore(f, p + 1), Some(g));
    SlotOrigin(f, entries, p + 1, Len(f), k);
    if Lookup(TableBefore(f, p + 1), g) == Home(f, v) {
      CodesDistinct(k, First(TableBefore(f, Len(f)), Some(v)));
      OriginOutside(f, p, g, v);
    }
  }

  lemma OriginOutside(f: Source, p: nat, g: nat, v: nat)
    requires SingleAssignment(f) && Generates(f, p, g) && DefinedOutside(f, BlockOf(f, p), v)
    ensures !SameOrigin(f, g, v)
  {
  }

  lemma FlowAt(f: Source, entries: seq<set<nat>>, b: nat, j: nat, c: Places)
    requires InFragment(f, entries) && b < |f.blocks| && j < |f.blocks[b]|
    ensures var i := f.blocks[b][j];
            var p := PositionOf(f, b, j);
            && p < Len(f) && InsAt(f, p) == i && BlockOf(f, p) == b && PositionOf(f, b, j + 1) == p + 1
            && Flow(c, TableAt(f, b, j), i) ==
               (if i.HasGen() then Put(c, i.gen.id, Place(FormAt(i), Lookup(TableBefore(f, p + 1), i.gen.id))) else c)
            && (i.HasGen() ==> Held(TableBefore(f, p + 1), i.gen.id))
  {
    BlockOfPosition(f, b, j);
    FlatAt(f.blocks, b, j + 1);
    var p := PositionOf(f, b, j);
    assert Simple(InsAt(f, p));
    if f.blocks[b][j].HasGen() {
      if f.blocks[b][j].Op? {
        LeftIsHeld(f, entries, p);
      }
      ResultPlaced(f, entries, p);
    }
  }

  lemma FragmentHasLive(f: Source, entries: seq<set<nat>>)
    requires InFragment(f, entries)
    ensures |LiveOf(f, entries)| == |f.blocks|
  {
  }

  lemma StepLeavesHome(f: Source, entries: seq<set<nat>>, b: nat, j: nat, v: nat, c: Places)
    requires InFragment(f, entries) && b < |f.blocks| && j < |f.blocks[b]|
    requires Settled(f, v) && DefinedOutside(f, b, v) && v in c && c[v] == Place(FormOf(f, v), Home(f, v))
    ensures var d := Flow(c, TableAt(f, b, j), f.blocks[b][j]);
            v in d && d[v] == c[v]
  {
    hide InFragment, Flow, Settled, DefinedOutside, FormOf;
    FlowAt(f, entries, b, j, c);
    if f.blocks[b][j].HasGen() {
      ResultAvoidsHome(f, entries, PositionOf(f, b, j), v);
    }
  }

  /** A settled value of another block stays at home throughout a block. */
  lemma {:induction false} EntryPersists(f: Source, entries: seq<set<nat>>, b: nat, j: nat, v: nat)
    requires InFragment(f, entries) && b < |f.blocks| && j <= |f.blocks[b]|
    requires v in entries[b] && Settled(f, v) && DefinedOutside(f, b, v)
    ensures var c := PlacesAt(f, LiveOf(f, entries)[b], b, j);
            v in c && c[v] == Place(FormOf(f, v), Home(f, v))
  {
    hide InFragment, Flow, Settled, DefinedOutside, Home, FormOf;
    FragmentHasLive(f, entries);
    if j == 0 {
      assert LiveOf(f, entries)[b] == LiveAtEntry(f, entries[b]);
    } else {
      EntryPersists(f, entries, b, j - 1, v);
      StepLeavesHome(f, entries, b, j - 1, v, PlacesAt(f, LiveOf(f, entries)[b], b, j - 1));
    }
  }

  /** A value generated in the block is where the table says, until an ADD takes it over. */
  lemma {:induction false} LocalPersists(f: Source, entries: seq<set<nat>>, b: nat, j0: nat, j: nat, v: nat)
    requires InFragment(f, entries) && b < |f.blocks| && j0 < j <= |f.blocks[b]|
    requires f.blocks[b][j0].HasGen() && f.blocks[b][j0].gen.id == v
    requires forall q :: 0 <= q < PositionOf(f, b, j) ==> !Consumes(f, q, v)
    ensures var c := PlacesAt(f, LiveOf(f, entries)[b], b, j);
            && v in c && Held(TableAt(f, b, j), v)
            && c[v] == Place(FormOf(f, v), Lookup(TableAt(f, b, j), v))
    decreases j
  {
    hide Emit, Flow;
    var before := PlacesAt(f, LiveOf(f, entries)[b], b, j - 1);
    FlowAt(f, entries, b, j - 1, before);
    if j0 < j - 1 {
      LocalPersists(f, entries, b, j0, j - 1, v);
      LocalStays(f, entries, PositionOf(f, b, j - 1), v);
    } else {
      FormOfGenerated(f, PositionOf(f, b, j0), v);
    }
  }

  /** A held value not taken over at p stays in its register, which the result of p avoids. */
  lemma LocalStays(f: Source, entries: seq<set<nat>>, p: nat, v: nat)
    requires InFragment(f, entries) && p < Len(f) && Held(TableBefore(f, p), v) && !Consumes(f, p, v)
    ensures Held(TableBefore(f, p + 1), v) && Lookup(TableBefore(f, p + 1), v) == Lookup(TableBefore(f, p), v)
    ensures InsAt(f, p).HasGen() ==>
              v != InsAt(f, p).gen.id && Lookup(TableBefore(f, p + 1), InsAt(f, p).gen.id) != Lookup(TableBefore(f, p), v)
  {
    FragmentFits(f, entries);
    KeepsRegister(f, p, 5, v);
    if InsAt(f, p).HasGen() {
      if InsAt(f, p).Op? {
        LeftIsHeld(f, entries, p);
      }
      ResultPlaced(f, entries, p);
    }
  }

  lemma {:induction false} DefinedSplits(f: Source, entries: seq<set<nat>>, b: nat, j: nat, v: nat)
    requires InFragment(f, entries) && b < |f.blocks| && j <= |f.blocks[b]|
    requires v in DefinedAfter(entries[b], f.blocks[b], j)
    ensures v in entries[b] || exists j0 :: 0 <= j0 < j && f.blocks[b][j0].HasGen() && f.blocks[b][j0].gen.id == v
  {
    if j > 0 {
      BlockOfPosition(f, b, j - 1);
      assert Simple(InsAt(f, PositionOf(f, b, j - 1)));
      if v in DefinedAfter(entries[b], f.blocks[b], j - 1) {
        DefinedSplits(f, entries, b, j - 1, v);
      } else {
        assert f.blocks[b][j - 1].HasGen() && f.blocks[b][j - 1].gen.id == v;
      }
    }
  }

  // ----- every position is supported -----

  /** A value read at a position is usable there. */
  lemma ReadIsUsable(f: Source, entries: seq<set<nat>>, b: nat, j: nat, v: nat)
    requires InFragment(f, entries) && b < |f.blocks| && j < |f.blocks[b]| && Reads(f.blocks[b][j], v)
    ensures var c := PlacesAt(f, LiveOf(f, entries)[b], b, j);
            v in c && c[v].reg == Lookup(TableAt(f, b, j), v) && c[v].reg < 8 && c[v].form == FormOf(f, v)
  {
    var p := PositionOf(f, b, j);
    BlockOfPosition(f, b, j);
    ReadIsHeld(f, entries, p, v);
    assert PathsDefine(f, entries, b, j);
    DefinedSplits(f, entries, b, j, v);
    if j0 :| 0 <= j0 < j && f.blocks[b][j0].HasGen() && f.blocks[b][j0].gen.id == v {
      LocalPersists(f, entries, b, j0, j, v);
    } else {
      ReadFromEntry(f, entries, b, j, v);
      EntryPersists(f, entries, b, j, v);
      SettledAtHome(f, entries, p, v);
    }
  }

  /** A value read but not generated earlier in the block comes settled from another block. */
  lemma ReadFromEntry(f: Source, entries: seq<set<nat>>, b: nat, j: nat, v: nat)
    requires InFragment(f, entries) && b < |f.blocks| && j < |f.blocks[b]| && Reads(f.blocks[b][j], v)
    requires forall j0 :: 0 <= j0 < j ==> !(f.blocks[b][j0].HasGen() && f.blocks[b][j0].gen.id == v)
    ensures Settled(f, v) && DefinedOutside(f, b, v)
  {
    var p := PositionOf(f, b, j);
    BlockOfPosition(f, b, j);
    assert Reads(InsAt(f, p), v) && Known(f, v, p);
    forall d | 0 <= d && Generates(f, d, v)
      ensures d < p && BlockOf(f, d) < b
    {
      if v < f.args {
        assert false;
      }
      var e :| 0 <= e < p && Generates(f, e, v);
      BlocksAscend(f, d, p);
      if BlockOf(f, d) == b {
        PositionInBlock(f.blocks, d);
        var j0 := d - FlatStart(f.blocks, b);
        BlockOfPosition(f, b, j0);
      }
    }
    forall q | 0 <= q < Len(f)
      ensures !Consumes(f, q, v)
    {
      if Consumes(f, q, v) {
        assert LeftIsLocal(f, q);
        var d :| 0 <= d < q && Generates(f, d, v) && BlockOf(f, d) == BlockOf(f, q);
        if p <= q {
          BlocksAscend(f, p, q);
        }
      }
    }
  }

  /** The branch at the end of a block hands over everything the target relies on. */
  lemma BranchJoins(f: Source, entries: seq<set<nat>>, b: nat, j: nat, target: nat)
    requires InFragment(f, entries) && b < |f.blocks| && j < |f.blocks[b]| && f.blocks[b][j].IsTerminator()
    requires target < |entries| && entries[target] <= DefinedAfter(entries[b], f.blocks[b], j)
    ensures Joins(LiveOf(f, entries), PlacesAt(f, LiveOf(f, entries)[b], b, j), target)
  {
    var c := PlacesAt(f, LiveOf(f, entries)[b], b, j);
    forall v | v in LiveOf(f, entries)[target]
      ensures v in c && c[v] == LiveOf(f, entries)[target][v]
    {
      DefinedSplits(f, entries, b, j, v);
      if j0 :| 0 <= j0 < j && f.blocks[b][j0].HasGen() && f.blocks[b][j0].gen.id == v {
        LocalPersists(f, entries, b, j0, j, v);
        SettledAtHome(f, entries, PositionOf(f, b, j), v);
      } else {
        NotGeneratedHere(f, entries, b, j, v);
        EntryPersists(f, entries, b, j, v);
      }
    }
  }

  lemma NotGeneratedHere(f: Source, entries: seq<set<nat>>, b: nat, j: nat, v: nat)
    requires InFragment(f, entries) && b < |f.blocks| && j < |f.blocks[b]| && f.blocks[b][j].IsTerminator()
    requires forall j0 :: 0 <= j0 < j ==> !(f.blocks[b][j0].HasGen() && f.blocks[b][j0].gen.id == v)
    ensures DefinedOutside(f, b, v)
  {
    forall d | 0 <= d && Generates(f, d, v)
      ensures BlockOf(f, d) != b
    {
      PositionInBlock(f.blocks, d);
      if BlockOf(f, d) == b {
        BlockOfPosition(f, b, d - FlatStart(f.blocks, b));
      }
    }
  }

  lemma PositionSupported(f: Source, entries: seq<set<nat>>, b: nat, j: nat)
    requires InFragment(f, entries) && b < |f.blocks| && j < |f.blocks[b]|
    ensures var live := LiveOf(f, entries);
            Supported(live, TableAt(f, b, j), PlacesAt(f, live[b], b, j), f.blocks[b][j])
  {
    BlockOfPosition(f, b, j);
    var i := f.blocks[b][j];
    assert Simple(InsAt(f, PositionOf(f, b, j)));
    assert PathsDefine(f, entries, b, j);
    match i
    case Const(_, _, _) => ConstFitsLow(f, entries, PositionOf(f, b, j));
    case Op(_, l, r, _) =>
      ReadIsUsable(f, entries, b, j, l.id);
      ReadIsUsable(f, entries, b, j, r.id);
    case Br(t) => BranchJoins(f, entries, b, j, t);
    case CondBr(v, t, e) =>
      ReadIsUsable(f, entries, b, j, v.id);
      BranchJoins(f, entries, b, j, t);
      BranchJoins(f, entries, b, j, e);
    case Ret(v) => ReadIsUsable(f, entries, b, j, v.id);
  }

  /** Functions of the fragment meet the conditions of the simulation. */
  lemma FragmentIsSimulated(f: Source, entries: seq<set<nat>>)
    requires InFragment(f, entries)
    ensures JitOk(f, LiveOf(f, entries)) && EntryOk(f, LiveOf(f, entries))
  {
    var live := LiveOf(f, entries);
    CodeSize(f, Len(f));
    forall b: nat, j: nat | b < |f.blocks| && j < |f.blocks[b]|
      ensures Supported(live, TableAt(f, b, j), PlacesAt(f, live[b], b, j), f.blocks[b][j])
    {
      PositionSupported(f, entries, b, j);
    }
    forall v | v in live[0]
      ensures v < f.args && v < 4 && live[0][v] == Place(Exact, ArgCode(v))
    {
      ArgsHeldAtEntry(f, v);
      SettledAtHome(f, entries, 0, v);
    }
  }

  // ----- the bytes -----

  lemma SupportedEncodes(live: seq<Places>, t: Table, c: Places, i: Instr, voidCall: bool)
    requires Supported(live, t, c, i)
    ensures forall a :: a in EmitInstr(t, i, voidCall).items ==> a.Encodable()
  {
  }

  lemma {:induction false} EmittedEncodes(f: Source, entries: seq<set<nat>>, p: nat)
    requires InFragment(f, entries) && p <= Len(f)
    ensures forall a :: a in Emit(f, p).items ==> a.Encodable()
    decreases p
  {
    hide EmitInstr, Supported, PlacesAt;
    if p > 0 {
      EmittedEncodes(f, entries, p - 1);
      PositionInBlock(f.blocks, p - 1);
      var b := BlockOf(f, p - 1);
      var j := p - 1 - FlatStart(f.blocks, b);
      BlockOfPosition(f, b, j);
      PositionSupported(f, entries, b, j);
      var live := LiveOf(f, entries);
      SupportedEncodes(live, TableAt(f, b, j), PlacesAt(f, live[b], b, j), f.blocks[b][j], f.voidCall(p - 1));
    }
  }

  /**
    Sweeping over the code of a function of the fragment gives back exactly the emitted
    instructions, with every branch leading to the code offset of its block.
  */
  lemma FragmentDisassembles(f: Source, entries: seq<set<nat>>)
    requires InFragment(f, entries)
    ensures var items, offsets := AllItems(f), BlockOffsets(f, |f.blocks|);
            && Disassemble(CodeOf(f), 0) == Some(Meanings(items, offsets))
            && forall k :: 0 <= k < |items| && items[k].IsBranch() ==>
                 OffsetOf(items, k + 1) + ItemDisplacement(items, k, offsets) == TargetOf(offsets, items[k].block)
  {
    hide InFragment, Emit, Decode, Resolved, Meaning;
    FragmentIsSimulated(f, entries);
    EmittedEncodes(f, entries, Len(f));
    CodeIsSmall(f);
    var items, offsets := AllItems(f), BlockOffsets(f, |f.blocks|);
    DisassemblesWhole(items, offsets);
    forall k | 0 <= k < |items| && items[k].IsBranch()
      ensures OffsetOf(items, k + 1) + ItemDisplacement(items, k, offsets) == TargetOf(offsets, items[k].block)
    {
      DecodesItem(items, offsets, k);
    }
  }
}

/**
 Condensing structs: the byte layout of a struct type, and the element condensers that share the
 struct's accumulator.
 */
module CondenseStruct {
  import opened Prelude
  import opened Boxes
  import opened Condense

  /** An atomic type: its size in bytes, and whether its integers are signed. */
  datatype LeafType = LeafType(bytes: nat, signed: bool)

  /** A cell type: an atomic type, or a struct of at least one element. */
  datatype CellType = Leaf(leaf: LeafType) | Struct(elems: seq<CellType>)

  predicate WellFormed(t: CellType) {
    match t
    case Leaf(l) => l.bytes >= 1
    case Struct(es) => es != [] && forall i :: 0 <= i < |es| ==> WellFormed(es[i])
  }

  /** `((x-1)/a+1)*a` */
  function RoundUp(x: nat, a: nat): (r: nat)
    requires x >= 1 && a >= 1
    ensures x <= r < x + a && r % a == 0
  {
    DivBounds(x - 1, a);
    var q := (x - 1) / a;
    assert (q + 1) * a == q * a + a;
    MulMono(0, q + 1, a);
    DivUnique((q + 1) * a, a, q + 1, 0);
    (q + 1) * a
  }

  /** The field `align` of a struct type after `addElementPriv`: the first element never raises it. */
  function Alignment(es: seq<CellType>): (a: nat)
    requires forall i :: 0 <= i < |es| ==> WellFormed(es[i])
    ensures a >= 1
    decreases es, 0
  {
    if |es| <= 1 then 1 else
      var a, own := Alignment(es[..|es| - 1]), ElementAlignment(es[|es| - 1]);
      if own > a then own else a
  }

  /** The multiple to which an element's offset is rounded up. */
  function ElementAlignment(t: CellType): (a: nat)
    requires WellFormed(t)
    ensures a >= 1
    decreases t, 1
  {
    if t.Struct? then Alignment(t.elems)
    else if t.leaf.bytes >= 4 then 4 else if t.leaf.bytes == 2 then 2 else 1
  }

  /** `elementOffsets[i]` as filled in by `addElementPriv`. */
  function ElementOffset(es: seq<CellType>, i: nat): nat
    requires forall j :: 0 <= j < |es| ==> WellFormed(es[j])
    requires i < |es|
    decreases es, 2, i
  {
    if i == 0 then 0
    else RoundUp(ElementOffset(es, i - 1) + Size(es[i - 1]), ElementAlignment(es[i]))
  }

  /** The scan of `calcSize` for the multiple of the whole struct's size. */
  function SizeAlignment(es: seq<CellType>): (a: nat)
    requires forall i :: 0 <= i < |es| ==> WellFormed(es[i])
    ensures a >= 1
    decreases es, 3
  {
    if es == [] then 1
    else
      var init := SizeAlignment(es[..|es| - 1]);
      if init == 4 || es[|es| - 1].Struct? || Size(es[|es| - 1]) == 4 then 4
      else if Size(es[|es| - 1]) == 2 then 2 else init
  }

  /** `getSize` */
  function Size(t: CellType): (n: nat)
    requires WellFormed(t)
    ensures n >= 1
    decreases t, 4
  {
    match t
    case Leaf(l) => l.bytes
    case Struct(es) =>
      RoundUp(ElementOffset(es, |es| - 1) + Size(es[|es| - 1]), SizeAlignment(es))
  }

  /** Elements follow one another without overlap. */
  lemma {:induction false} ElementsApart(es: seq<CellType>, i: nat, j: nat)
    requires WellFormed(Struct(es)) && i < j < |es|
    ensures ElementOffset(es, i) + Size(es[i]) <= ElementOffset(es, j)
  {
    if i < j - 1 { ElementsApart(es, i, j - 1); }
  }

  /** Every element ends inside the struct. */
  lemma ElementInside(es: seq<CellType>, i: nat)
    requires WellFormed(Struct(es)) && i < |es|
    ensures ElementOffset(es, i) + Size(es[i]) <= Size(Struct(es))
  {
    hide RoundUp, SizeAlignment, ElementOffset;
    if i < |es| - 1 { ElementsApart(es, i, |es| - 1); }
  }

  // ---------- element condensers ----------

  /**
   What a leaf condenser does to an external accumulator: from the bytes of its operand and of its result it makes
   the new bytes of its result. The types are those of result and operand.
   */
  type Operator = (LeafType, LeafType, seq<byte>, seq<byte>) -> seq<byte>

  ghost predicate KeepsLength(f: Operator) { forall r, o, x, y :: |f(r, o, x, y)| == |y| }

  /** Where an element condenser reads its operand and keeps its result. */
  datatype Slot = Slot(res: LeafType, op: LeafType, resOff: nat, opOff: nat) {
    function ResEnd(): nat { resOff + res.bytes }
    function OpEnd(): nat { opOff + op.bytes }
  }

  /** A condenser object: a leaf condenser, or `OpCondenseStruct` with one object per element. */
  datatype OpTree = LeafOp(slot: Slot) | StructOp(elemOps: seq<OpTree>)

  /** Result and operand type have the same structure; their leaves may differ. */
  predicate SameShape(res: CellType, op: CellType) {
    match res
    case Leaf(_) => op.Leaf?
    case Struct(es) =>
      op.Struct? && |es| == |op.elems| && forall i :: 0 <= i < |es| ==> SameShape(es[i], op.elems[i])
  }

  /** `getCondenseOp` on a type, with the constructor of `OpCondenseStruct`. */
  function NewCondenseOp(res: CellType, op: CellType, resOff: nat, opOff: nat): OpTree
    requires WellFormed(res) && WellFormed(op) && SameShape(res, op)
  {
    match res
    case Leaf(l) => LeafOp(Slot(l, op.leaf, resOff, opOff))
    case Struct(es) =>
      StructOp(seq(|es|, i requires 0 <= i < |es| =>
        NewCondenseOp(es[i], op.elems[i], resOff + ElementOffset(es, i), opOff + ElementOffset(op.elems, i))))
  }

  /** The slot lies in an operand of `cellSize` bytes and a result of `resSize` bytes. */
  predicate SlotFits(s: Slot, cellSize: nat, resSize: nat) { s.OpEnd() <= cellSize && s.ResEnd() <= resSize }

  /** The bytes of a slot in a result, and in an operand. */
  function Field(m: seq<byte>, s: Slot): (r: seq<byte>)
    requires s.ResEnd() <= |m|
    ensures |r| == s.res.bytes
  {
    m[s.resOff..s.ResEnd()]
  }

  function Operand(cell: seq<byte>, s: Slot): (r: seq<byte>)
    requires s.OpEnd() <= |cell|
    ensures |r| == s.op.bytes
  {
    cell[s.opOff..s.OpEnd()]
  }

  ghost function LeafStep(f: Operator, s: Slot, cell: seq<byte>, init: seq<byte>): (r: seq<byte>)
    requires KeepsLength(f) && SlotFits(s, |cell|, |init|)
    ensures |r| == |init|
  {
    Put(init, s.resOff, f(s.res, s.op, Operand(cell, s), Field(init, s)))
  }

  function Slots(t: OpTree): seq<Slot> {
    match t
    case LeafOp(s) => [s]
    case StructOp(ops) => SlotsOf(ops)
  }

  function SlotsOf(ops: seq<OpTree>): seq<Slot> {
    if ops == [] then [] else SlotsOf(ops[..|ops| - 1]) + Slots(ops[|ops| - 1])
  }

  predicate AllFit(slots: seq<Slot>, cellSize: nat, resSize: nat) {
    forall i :: 0 <= i < |slots| ==> SlotFits(slots[i], cellSize, resSize)
  }

  /** The leaf condensers applied one after another. */
  ghost function LeafSteps(f: Operator, slots: seq<Slot>, cell: seq<byte>, init: seq<byte>): (r: seq<byte>)
    requires KeepsLength(f) && AllFit(slots, |cell|, |init|)
    ensures |r| == |init|
  {
    if slots == [] then init
    else LeafStep(f, slots[|slots| - 1], cell, LeafSteps(f, slots[..|slots| - 1], cell, init))
  }

  lemma {:induction false} LeafStepsConcat(f: Operator, a: seq<Slot>, b: seq<Slot>, cell: seq<byte>, init: seq<byte>)
    requires KeepsLength(f) && AllFit(a, |cell|, |init|) && AllFit(b, |cell|, |init|) && AllFit(a + b, |cell|, |init|)
    ensures LeafSteps(f, a + b, cell, init) == LeafSteps(f, b, cell, LeafSteps(f, a, cell, init))
  {
    hide LeafStep, KeepsLength;
    if b == [] {
      assert a + b == a;
    } else {
      assert (a + b)[..|a + b| - 1] == a + b[..|b| - 1];
      LeafStepsConcat(f, a, b[..|b| - 1], cell, init);
    }
  }

  /** `operator()` of a leaf condenser on an external accumulator. */
  method AccumulateLeaf(f: Operator, s: Slot, cell: seq<byte>, init: array<byte>)
    requires KeepsLength(f) && SlotFits(s, |cell|, init.Length)
    modifies init
    ensures init[..] == LeafStep(f, s, cell, old(init[..]))
  {
    var after := f(s.res, s.op, Operand(cell, s), Field(init[..], s));
    forall i | 0 <= i < |after| { init[s.resOff + i] := after[i]; }
  }

  /** `OpCondenseStruct::operator()`: every element condenser in turn, all on the same accumulator. */
  method Accumulate(f: Operator, t: OpTree, cell: seq<byte>, init: array<byte>)
    requires KeepsLength(f) && AllFit(Slots(t), |cell|, init.Length)
    modifies init
    ensures init[..] == LeafSteps(f, Slots(t), cell, old(init[..]))
    decreases t
  {
    hide LeafStep, LeafSteps, AllFit, SlotsOf, KeepsLength;
    match t {
      case LeafOp(s) =>
        OneSlot(f, s, cell, init[..]);
        AccumulateLeaf(f, s, cell, init);
      case StructOp(ops) =>
        ghost var before := init[..];
        NoOps(f, ops, cell, before);
        for i := 0 to |ops|
          invariant |init[..]| == |before| && AllFit(SlotsOf(ops[..i]), |cell|, |before|)
          invariant init[..] == LeafSteps(f, SlotsOf(ops[..i]), cell, before)
        {
          NextOp(f, ops, i, cell, before);
          Accumulate(f, ops[i], cell, init);
        }
        assert ops[..|ops|] == ops;
    }
  }

  lemma OneSlot(f: Operator, s: Slot, cell: seq<byte>, init: seq<byte>)
    requires KeepsLength(f) && AllFit(Slots(LeafOp(s)), |cell|, |init|)
    ensures SlotFits(s, |cell|, |init|) && LeafSteps(f, Slots(LeafOp(s)), cell, init) == LeafStep(f, s, cell, init)
  {
    hide LeafStep, KeepsLength;
    assert Slots(LeafOp(s)) == [s] && [s][0] == s && [s][..0] == [];
  }

  lemma NoOps(f: Operator, ops: seq<OpTree>, cell: seq<byte>, before: seq<byte>)
    requires KeepsLength(f)
    ensures AllFit(SlotsOf(ops[..0]), |cell|, |before|) && LeafSteps(f, SlotsOf(ops[..0]), cell, before) == before
  {
    hide KeepsLength, LeafStep;
  }

  /** What the condensers up to i do, and what number i adds. */
  lemma NextOp(f: Operator, ops: seq<OpTree>, i: nat, cell: seq<byte>, before: seq<byte>)
    requires KeepsLength(f) && AllFit(SlotsOf(ops), |cell|, |before|) && i < |ops|
    ensures AllFit(SlotsOf(ops[..i]), |cell|, |before|) && AllFit(Slots(ops[i]), |cell|, |before|)
    ensures AllFit(SlotsOf(ops[..i + 1]), |cell|, |before|)
    ensures LeafSteps(f, SlotsOf(ops[..i + 1]), cell, before)
            == LeafSteps(f, Slots(ops[i]), cell, LeafSteps(f, SlotsOf(ops[..i]), cell, before))
  {
    hide LeafStep, KeepsLength, LeafSteps, SlotFits;
    PrefixSlots(ops, i);
    SlotsOfPrefix(ops, i + 1);
    assert AllFit(SlotsOf(ops[..i + 1]), |cell|, |before|);
    hide SlotsOf, Slots;
    AllFitConcat(SlotsOf(ops[..i]), Slots(ops[i]), |cell|, |before|);
    LeafStepsConcat(f, SlotsOf(ops[..i]), Slots(ops[i]), cell, before);
  }

  lemma PrefixSlots(ops: seq<OpTree>, i: nat)
    requires i < |ops|
    ensures SlotsOf(ops[..i + 1]) == SlotsOf(ops[..i]) + Slots(ops[i])
  {
    assert ops[..i + 1][..i] == ops[..i];
  }

  lemma AllFitConcat(a: seq<Slot>, b: seq<Slot>, cellSize: nat, resSize: nat)
    ensures AllFit(a + b, cellSize, resSize) <==> AllFit(a, cellSize, resSize) && AllFit(b, cellSize, resSize)
  {
    forall i | 0 <= i < |a| ensures (a + b)[i] == a[i] {}
    forall i | 0 <= i < |b| ensures (a + b)[|a| + i] == b[i] {}
  }

  lemma {:induction false} SlotsOfPrefix(ops: seq<OpTree>, n: nat)
    requires n <= |ops|
    ensures SlotsOf(ops[..n]) <= SlotsOf(ops)
  {
    if n == |ops| {
      assert ops[..n] == ops;
    } else {
      var init := ops[..|ops| - 1];
      SlotsOfPrefix(init, n);
      assert init[..n] == ops[..n];
    }
  }

  // ---------- fields do not interfere ----------

  predicate Apart(a: Slot, b: Slot) { a.ResEnd() <= b.resOff || b.ResEnd() <= a.resOff }

  predicate PairwiseApart(slots: seq<Slot>) {
    forall i, j :: 0 <= i < j < |slots| ==> Apart(slots[i], slots[j])
  }

  /** All slots lie in the given ranges of the result and the operand. */
  predicate Within(slots: seq<Slot>, resOff: nat, resEnd: nat, opOff: nat, opEnd: nat) {
    forall i :: 0 <= i < |slots| ==>
      && resOff <= slots[i].resOff && slots[i].ResEnd() <= resEnd
      && opOff <= slots[i].opOff && slots[i].OpEnd() <= opEnd
  }

  /** The element condensers of a struct keep their results in disjoint ranges, inside the struct. */
  lemma {:induction false} SlotsApart(res: CellType, op: CellType, resOff: nat, opOff: nat)
    requires WellFormed(res) && WellFormed(op) && SameShape(res, op)
    ensures var slots := Slots(NewCondenseOp(res, op, resOff, opOff));
            PairwiseApart(slots) && Within(slots, resOff, resOff + Size(res), opOff, opOff + Size(op))
    decreases res, 1
  {
    hide Size, ElementOffset, Within, PairwiseApart;
    match res {
      case Leaf(l) =>
        LeafSlot(res, op, resOff, opOff);
        assert Slots(NewCondenseOp(res, op, resOff, opOff)) == [Slot(l, op.leaf, resOff, opOff)];
      case Struct(es) =>
        var ops := NewCondenseOp(res, op, resOff, opOff).elemOps;
        assert ops[..|es|] == ops;
        ElementSlotsApart(res, op, resOff, opOff, |es|);
        var last := |es| - 1;
        ElementInside(es, last);
        ElementInside(op.elems, last);
        WithinWider(SlotsOf(ops), resOff, resOff + ElementOffset(es, last) + Size(es[last]), resOff + Size(res),
                    opOff, opOff + ElementOffset(op.elems, last) + Size(op.elems[last]), opOff + Size(op));
    }
  }

  lemma LeafSlot(res: CellType, op: CellType, resOff: nat, opOff: nat)
    requires WellFormed(res) && WellFormed(op) && SameShape(res, op) && res.Leaf?
    ensures var slots := [Slot(res.leaf, op.leaf, resOff, opOff)];
            PairwiseApart(slots) && Within(slots, resOff, resOff + Size(res), opOff, opOff + Size(op))
  {
  }

  lemma WithinWider(slots: seq<Slot>, resOff: nat, resEnd: nat, resEnd': nat, opOff: nat, opEnd: nat, opEnd': nat)
    requires Within(slots, resOff, resEnd, opOff, opEnd) && resEnd <= resEnd' && opEnd <= opEnd'
    ensures Within(slots, resOff, resEnd', opOff, opEnd')
  {
  }

  lemma {:induction false} ElementSlotsApart(res: CellType, op: CellType, resOff: nat, opOff: nat, n: nat)
    requires WellFormed(res) && WellFormed(op) && SameShape(res, op) && res.Struct? && 1 <= n <= |res.elems|
    ensures var slots := SlotsOf(NewCondenseOp(res, op, resOff, opOff).elemOps[..n]);
            && PairwiseApart(slots)
            && Within(slots, resOff, resOff + ElementOffset(res.elems, n - 1) + Size(res.elems[n - 1]),
                      opOff, opOff + ElementOffset(op.elems, n - 1) + Size(op.elems[n - 1]))
    decreases res, 0, n
  {
    hide Size, ElementOffset, Within, PairwiseApart;
    var ops := NewCondenseOp(res, op, resOff, opOff).elemOps;
    var es, os := res.elems, op.elems;
    var init := SlotsOf(ops[..n - 1]);
    var last := Slots(ops[n - 1]);
    assert ops[..n][..n - 1] == ops[..n - 1];
    assert SlotsOf(ops[..n]) == init + last;
    hide Slots, SlotsOf, WellFormed, SameShape;
    SlotsApart(es[n - 1], os[n - 1], resOff + ElementOffset(es, n - 1), opOff + ElementOffset(os, n - 1));
    if n > 1 {
      ElementSlotsApart(res, op, resOff, opOff, n - 1);
      ElementsApart(es, n - 2, n - 1);
      ElementsApart(os, n - 2, n - 1);
      WithinWider(init, resOff, resOff + ElementOffset(es, n - 2) + Size(es[n - 2]), resOff + ElementOffset(es, n - 1),
                  opOff, opOff + ElementOffset(os, n - 2) + Size(os[n - 2]), opOff + ElementOffset(os, n - 1));
      JoinApart(init, last, resOff, resOff + ElementOffset(es, n - 1), resOff + ElementOffset(es, n - 1) + Size(es[n - 1]),
                opOff, opOff + ElementOffset(os, n - 1), opOff + ElementOffset(os, n - 1) + Size(os[n - 1]));
    } else {
      FirstOffset(es);
      FirstOffset(os);
      assert ops[..0] == [];
      assert init + last == last;
    }
  }

  lemma FirstOffset(es: seq<CellType>)
    requires es != [] && forall j :: 0 <= j < |es| ==> WellFormed(es[j])
    ensures ElementOffset(es, 0) == 0
  {
  }

  lemma JoinApart(a: seq<Slot>, b: seq<Slot>, resOff: nat, resMid: nat, resEnd: nat, opOff: nat, opMid: nat, opEnd: nat)
    requires PairwiseApart(a) && PairwiseApart(b)
    requires Within(a, resOff, resMid, opOff, opMid) && Within(b, resMid, resEnd, opMid, opEnd)
    requires resOff <= resMid <= resEnd && opOff <= opMid <= opEnd
    ensures PairwiseApart(a + b) && Within(a + b, resOff, resEnd, opOff, opEnd)
  {
  }

  /** The result of leaf i after all leaf condensers have run: what its own condenser makes of it, nothing else. */
  lemma {:induction false} LeafStepsAt(f: Operator, slots: seq<Slot>, cell: seq<byte>, init: seq<byte>, i: nat)
    requires KeepsLength(f) && AllFit(slots, |cell|, |init|) && PairwiseApart(slots) && i < |slots|
    ensures var s := slots[i];
            SlotFits(s, |cell|, |init|)
            && Field(LeafSteps(f, slots, cell, init), s) == f(s.res, s.op, Operand(cell, s), Field(init, s))
  {
    hide KeepsLength, LeafStep, Field, Operand;
    var front, last, s := slots[..|slots| - 1], slots[|slots| - 1], slots[i];
    if i < |front| {
      LeafStepsAt(f, front, cell, init, i);
      assert Apart(slots[i], slots[|slots| - 1]);
      LeafStepElsewhere(f, last, cell, LeafSteps(f, front, cell, init), s);
    } else {
      assert forall j :: 0 <= j < |front| ==> Apart(front[j], s);
      LeafStepsElsewhere(f, front, cell, init, s);
      LeafStepAt(f, last, cell, LeafSteps(f, front, cell, init));
    }
  }

  lemma LeafStepAt(f: Operator, s: Slot, cell: seq<byte>, init: seq<byte>)
    requires KeepsLength(f) && SlotFits(s, |cell|, |init|)
    ensures Field(LeafStep(f, s, cell, init), s) == f(s.res, s.op, Operand(cell, s), Field(init, s))
  {
  }

  lemma LeafStepElsewhere(f: Operator, s: Slot, cell: seq<byte>, init: seq<byte>, other: Slot)
    requires KeepsLength(f) && SlotFits(s, |cell|, |init|) && other.ResEnd() <= |init| && Apart(s, other)
    ensures Field(LeafStep(f, s, cell, init), other) == Field(init, other)
  {
    assert |f(s.res, s.op, Operand(cell, s), Field(init, s))| == s.res.bytes;
  }

  lemma {:induction false} LeafStepsElsewhere(f: Operator, slots: seq<Slot>, cell: seq<byte>, init: seq<byte>, other: Slot)
    requires KeepsLength(f) && AllFit(slots, |cell|, |init|) && other.ResEnd() <= |init|
    requires forall j :: 0 <= j < |slots| ==> Apart(slots[j], other)
    ensures Field(LeafSteps(f, slots, cell, init), other) == Field(init, other)
  {
    hide KeepsLength, LeafStep, Field;
    if slots != [] {
      var front := slots[..|slots| - 1];
      LeafStepsElsewhere(f, front, cell, init, other);
      LeafStepElsewhere(f, slots[|slots| - 1], cell, LeafSteps(f, front, cell, init), other);
    }
  }

  /** A struct condenser fed with a sequence of struct cells. */
  ghost function RunStruct(f: Operator, t: OpTree, cells: seq<seq<byte>>, init: seq<byte>): (r: seq<byte>)
    requires KeepsLength(f) && forall i :: 0 <= i < |cells| ==> AllFit(Slots(t), |cells[i]|, |init|)
    ensures |r| == |init|
  {
    if cells == [] then init
    else LeafSteps(f, Slots(t), cells[|cells| - 1], RunStruct(f, t, cells[..|cells| - 1], init))
  }

  /** A single leaf condenser fed with a sequence of operands. */
  function RunLeaf(f: Operator, res: LeafType, op: LeafType, column: seq<seq<byte>>, start: seq<byte>): seq<byte> {
    if column == [] then start
    else f(res, op, column[|column| - 1], RunLeaf(f, res, op, column[..|column| - 1], start))
  }

  /** One field of every cell. */
  function Column(s: Slot, cells: seq<seq<byte>>): (r: seq<seq<byte>>)
    requires forall i :: 0 <= i < |cells| ==> s.OpEnd() <= |cells[i]|
    ensures |r| == |cells|
  {
    seq(|cells|, i requires 0 <= i < |cells| => Operand(cells[i], s))
  }

  lemma WithinFits(slots: seq<Slot>, resEnd: nat, opEnd: nat, cellSize: nat, resSize: nat)
    requires Within(slots, 0, resEnd, 0, opEnd) && opEnd <= cellSize && resEnd <= resSize
    ensures AllFit(slots, cellSize, resSize)
  {
  }

  /** Slots of a struct's condenser fit every result and operand of its types. */
  lemma StructFits(res: CellType, op: CellType, cellSize: nat, resSize: nat)
    requires WellFormed(res) && WellFormed(op) && SameShape(res, op) && resSize >= Size(res) && cellSize >= Size(op)
    ensures AllFit(Slots(NewCondenseOp(res, op, 0, 0)), cellSize, resSize)
    ensures PairwiseApart(Slots(NewCondenseOp(res, op, 0, 0)))
  {
    hide Size, NewCondenseOp, Slots, Within, AllFit, PairwiseApart, WellFormed, SameShape;
    SlotsApart(res, op, 0, 0);
    WithinFits(Slots(NewCondenseOp(res, op, 0, 0)), Size(res), Size(op), cellSize, resSize);
  }

  /**
   Condensing structs cell by cell condenses every leaf field on its own, whatever the sizes of the leaves of result
   and operand, the leaf operators, the cells and the accumulator are.
   */
  lemma {:induction false} FieldsIndependent(f: Operator, res: CellType, op: CellType, cells: seq<seq<byte>>, init: seq<byte>, i: nat)
    requires KeepsLength(f) && WellFormed(res) && WellFormed(op) && SameShape(res, op)
    requires |init| >= Size(res) && forall k :: 0 <= k < |cells| ==> |cells[k]| >= Size(op)
    requires i < |Slots(NewCondenseOp(res, op, 0, 0))|
    ensures var t := NewCondenseOp(res, op, 0, 0);
            var s := Slots(t)[i];
            && (forall k :: 0 <= k < |cells| ==> AllFit(Slots(t), |cells[k]|, |init|) && s.OpEnd() <= |cells[k]|)
            && s.ResEnd() <= |init|
            && Field(RunStruct(f, t, cells, init), s) == RunLeaf(f, s.res, s.op, Column(s, cells), Field(init, s))
  {
    hide KeepsLength, WellFormed, SameShape, NewCondenseOp, Slots, Size, Within, PairwiseApart, LeafSteps, Field, Operand;
    var t := NewCondenseOp(res, op, 0, 0);
    var slots := Slots(t);
    var s := slots[i];
    StructFits(res, op, Size(op), |init|);
    forall k | 0 <= k < |cells| ensures AllFit(slots, |cells[k]|, |init|) && SlotFits(s, |cells[k]|, |init|) {
      StructFits(res, op, |cells[k]|, |init|);
    }
    assert SlotFits(s, Size(op), |init|);
    hide AllFit;
    if cells != [] {
      var front, last := cells[..|cells| - 1], cells[|cells| - 1];
      FieldsIndependent(f, res, op, front, init, i);
      assert forall k :: 0 <= k < |front| ==> front[k] == cells[k];
      var column := Column(s, cells);
      assert column[..|column| - 1] == Column(s, front);
      LeafStepsAt(f, slots, last, RunStruct(f, t, front, init), i);
    }
  }
}

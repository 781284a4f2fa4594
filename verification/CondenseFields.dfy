/**
 Struct condensers from their construction on: the accumulator the constructors build, and MAX, MIN and SUM over
 structs of integers of one, two and four bytes.
 */
module CondenseFields {
  import opened Prelude
  import opened Boxes
  import opened Condense
  import opened CondenseStruct

  // ---------- the accumulator of the constructor ----------

  /** The bytes a leaf condenser's constructor puts into its own accumulator. */
  type StartBytes = LeafType -> seq<byte>

  ghost predicate FillsLeaf(start: StartBytes) { forall l :: |start(l)| == l.bytes }

  /** Every leaf of the type, laid out from `off` on, holds its start value; the bytes in between are free. */
  predicate HasStart(start: StartBytes, t: CellType, m: seq<byte>, off: nat)
    requires WellFormed(t)
  {
    match t
    case Leaf(l) => off + l.bytes <= |m| && m[off..off + l.bytes] == start(l)
    case Struct(es) => forall i :: 0 <= i < |es| ==> HasStart(start, es[i], m, off + ElementOffset(es, i))
  }

  /** It depends on the bytes of the type only. */
  lemma {:induction false} HasStartMoved(start: StartBytes, t: CellType, m: seq<byte>, off: nat, m': seq<byte>, off': nat)
    requires WellFormed(t) && HasStart(start, t, m, off)
    requires off + Size(t) <= |m| && off' + Size(t) <= |m'| && m[off..off + Size(t)] == m'[off'..off' + Size(t)]
    ensures HasStart(start, t, m', off')
  {
    hide Size, ElementOffset, HasStart;
    match t
    case Leaf(l) => LeafMoved(start, l, m, off, m', off');
    case Struct(es) =>
      StructStart(start, es, m, off);
      StructStart(start, es, m', off');
      forall i | 0 <= i < |es| ensures HasStart(start, es[i], m', off' + ElementOffset(es, i)) {
        ElementInside(es, i);
        SameRange(m, off, m', off', Size(t), ElementOffset(es, i), Size(es[i]));
        HasStartMoved(start, es[i], m, off + ElementOffset(es, i), m', off' + ElementOffset(es, i));
      }
  }

  lemma LeafMoved(start: StartBytes, l: LeafType, m: seq<byte>, off: nat, m': seq<byte>, off': nat)
    requires l.bytes >= 1 && HasStart(start, Leaf(l), m, off)
    requires off' + Size(Leaf(l)) <= |m'| && m[off..off + Size(Leaf(l))] == m'[off'..off' + Size(Leaf(l))]
    ensures HasStart(start, Leaf(l), m', off')
  {
  }

  lemma StructStart(start: StartBytes, es: seq<CellType>, m: seq<byte>, off: nat)
    requires WellFormed(Struct(es))
    ensures HasStart(start, Struct(es), m, off) <==>
            forall i :: 0 <= i < |es| ==> HasStart(start, es[i], m, off + ElementOffset(es, i))
  {
    hide ElementOffset;
  }

  lemma SameRange(m: seq<byte>, off: nat, m': seq<byte>, off': nat, n: nat, i: nat, k: nat)
    requires off + n <= |m| && off' + n <= |m'| && m[off..off + n] == m'[off'..off' + n] && i + k <= n
    ensures m[off + i..off + i + k] == m'[off' + i..off' + i + k]
  {
    var a, b := m[off + i..off + i + k], m'[off' + i..off' + i + k];
    forall x | 0 <= x < k ensures a[x] == b[x] {
      assert m[off..off + n][i + x] == m'[off'..off' + n][i + x];
    }
  }

  /** `memcpy` of a whole buffer. */
  method CopyInto(dst: array<byte>, at: nat, src: array<byte>)
    requires dst != src && at + src.Length <= dst.Length
    modifies dst
    ensures dst[..] == Put(old(dst[..]), at, src[..])
  {
    forall k | 0 <= k < src.Length { dst[at + k] := src[k]; }
  }

  /** The constructors: each element's accumulator is copied to its offset in the struct's. */
  method NewAccu(start: StartBytes, t: CellType) returns (accu: array<byte>)
    requires FillsLeaf(start) && WellFormed(t)
    ensures fresh(accu) && accu.Length == Size(t) && HasStart(start, t, accu[..], 0)
    decreases t
  {
    hide Size, ElementOffset, HasStart, ElementStarted;
    match t {
      case Leaf(l) =>
        var value := start(l);
        accu := new byte[l.bytes];
        forall i | 0 <= i < l.bytes { accu[i] := value[i]; }
        assert accu[..] == value;
        LeafStarted(start, l, accu[..]);
      case Struct(es) =>
        accu := new byte[Size(t)];
        for i := 0 to |es|
          invariant fresh(accu) && accu.Length == Size(t)
          invariant forall j :: 0 <= j < i ==> ElementStarted(start, es, accu[..], j)
        {
          ghost var before := accu[..];
          var elem := NewAccu(start, es[i]);
          assert accu[..] == before;
          ElementInside(es, i);
          CopyInto(accu, ElementOffset(es, i), elem);
          forall j | 0 <= j <= i ensures ElementStarted(start, es, accu[..], j) {
            NextElement(start, es, i, j, before, elem[..]);
          }
        }
        AllElements(start, es, accu[..]);
    }
  }

  lemma LeafStarted(start: StartBytes, l: LeafType, m: seq<byte>)
    requires l.bytes >= 1 && |m| == l.bytes && m == start(l)
    ensures Size(Leaf(l)) == l.bytes && HasStart(start, Leaf(l), m, 0)
  {
    assert m[0..0 + l.bytes] == m;
  }

  /** Overwriting bytes behind a type keeps its start values, and copying its accumulator brings them. */
  lemma StartKept(start: StartBytes, t: CellType, before: seq<byte>, off: nat, at: nat, elem: seq<byte>)
    requires WellFormed(t) && HasStart(start, t, before, off) && off + Size(t) <= at && at + |elem| <= |before|
    ensures HasStart(start, t, Put(before, at, elem), off)
  {
    hide Size, HasStart, WellFormed;
    PutElsewhere(before, at, elem, off, Size(t));
    HasStartMoved(start, t, before, off, Put(before, at, elem), off);
  }

  lemma StartCopied(start: StartBytes, t: CellType, before: seq<byte>, at: nat, elem: seq<byte>)
    requires WellFormed(t) && HasStart(start, t, elem, 0) && |elem| == Size(t) && at + |elem| <= |before|
    ensures HasStart(start, t, Put(before, at, elem), at)
  {
    hide Size, HasStart, WellFormed;
    PutThere(before, at, elem);
    HasStartMoved(start, t, elem, 0, Put(before, at, elem), at);
  }

  predicate ElementStarted(start: StartBytes, es: seq<CellType>, m: seq<byte>, j: nat)
    requires WellFormed(Struct(es)) && j < |es|
  {
    HasStart(start, es[j], m, ElementOffset(es, j))
  }

  lemma NextElement(start: StartBytes, es: seq<CellType>, i: nat, j: nat, before: seq<byte>, elem: seq<byte>)
    requires WellFormed(Struct(es)) && j <= i < |es| && |elem| == Size(es[i])
    requires ElementOffset(es, i) + Size(es[i]) <= |before| && HasStart(start, es[i], elem, 0)
    requires j < i ==> ElementStarted(start, es, before, j)
    ensures ElementStarted(start, es, Put(before, ElementOffset(es, i), elem), j)
  {
    hide Size, ElementOffset, HasStart;
    if j < i {
      ElementsApart(es, j, i);
      StartKept(start, es[j], before, ElementOffset(es, j), ElementOffset(es, i), elem);
    } else {
      StartCopied(start, es[i], before, ElementOffset(es, i), elem);
    }
  }

  lemma PutElsewhere(s: seq<byte>, at: nat, part: seq<byte>, off: nat, n: nat)
    requires at + |part| <= |s| && off + n <= at
    ensures s[off..off + n] == Put(s, at, part)[off..off + n]
  {
  }

  lemma PutThere(s: seq<byte>, at: nat, part: seq<byte>)
    requires at + |part| <= |s|
    ensures part[0..0 + |part|] == Put(s, at, part)[at..at + |part|]
  {
  }

  lemma AllElements(start: StartBytes, es: seq<CellType>, m: seq<byte>)
    requires WellFormed(Struct(es)) && forall j :: 0 <= j < |es| ==> ElementStarted(start, es, m, j)
    ensures HasStart(start, Struct(es), m, 0)
  {
    hide ElementOffset;
    forall j | 0 <= j < |es| ensures HasStart(start, es[j], m, 0 + ElementOffset(es, j)) {
      assert ElementStarted(start, es, m, j);
    }
  }

  predicate SlotStarted(start: StartBytes, s: Slot, m: seq<byte>) { s.ResEnd() <= |m| && Field(m, s) == start(s.res) }

  predicate AllStarted(start: StartBytes, slots: seq<Slot>, m: seq<byte>) {
    forall i :: 0 <= i < |slots| ==> SlotStarted(start, slots[i], m)
  }

  /** What the constructor put there is what the slots of the condenser hold. */
  lemma {:induction false} SlotsStarted(start: StartBytes, res: CellType, op: CellType, resOff: nat, opOff: nat, m: seq<byte>)
    requires WellFormed(res) && WellFormed(op) && SameShape(res, op) && HasStart(start, res, m, resOff)
    ensures AllStarted(start, Slots(NewCondenseOp(res, op, resOff, opOff)), m)
  {
    hide ElementOffset;
    match res
    case Leaf(l) => assert Slots(NewCondenseOp(res, op, resOff, opOff)) == [Slot(l, op.leaf, resOff, opOff)];
    case Struct(es) =>
      var ops := NewCondenseOp(res, op, resOff, opOff).elemOps;
      forall i | 0 <= i < |es| ensures AllStarted(start, Slots(ops[i]), m) {
        SlotsStarted(start, es[i], op.elems[i], resOff + ElementOffset(es, i), opOff + ElementOffset(op.elems, i), m);
      }
      OpsStarted(start, ops, m);
  }

  lemma {:induction false} OpsStarted(start: StartBytes, ops: seq<OpTree>, m: seq<byte>)
    requires forall i :: 0 <= i < |ops| ==> AllStarted(start, Slots(ops[i]), m)
    ensures AllStarted(start, SlotsOf(ops), m)
  {
    hide SlotStarted, Slots;
    if ops != [] { OpsStarted(start, ops[..|ops| - 1], m); }
  }

  /** From the constructor's accumulator on, each field is what its leaf condenser makes of the column from its own start. */
  lemma FieldsFromConstructor(f: Operator, start: StartBytes, res: CellType, op: CellType, cells: seq<seq<byte>>, init: seq<byte>, i: nat)
    requires KeepsLength(f) && WellFormed(res) && WellFormed(op) && SameShape(res, op)
    requires |init| == Size(res) && HasStart(start, res, init, 0) && forall k :: 0 <= k < |cells| ==> |cells[k]| >= Size(op)
    requires i < |Slots(NewCondenseOp(res, op, 0, 0))|
    ensures var t := NewCondenseOp(res, op, 0, 0);
            var s := Slots(t)[i];
            && (forall k :: 0 <= k < |cells| ==> AllFit(Slots(t), |cells[k]|, |init|) && s.OpEnd() <= |cells[k]|)
            && s.ResEnd() <= |init|
            && Field(RunStruct(f, t, cells, init), s) == RunLeaf(f, s.res, s.op, Column(s, cells), start(s.res))
  {
    hide KeepsLength, WellFormed, SameShape, NewCondenseOp, Slots, Size, RunStruct, Field, HasStart;
    FieldsIndependent(f, res, op, cells, init, i);
    SlotsStarted(start, res, op, 0, 0, init);
    assert SlotStarted(start, Slots(NewCondenseOp(res, op, 0, 0))[i], init);
  }

  /** A struct condenser made for the types and fed with cells: each field is its own column condensed. */
  method CondenseCells(f: Operator, start: StartBytes, res: CellType, op: CellType, cells: seq<seq<byte>>) returns (accu: array<byte>)
    requires KeepsLength(f) && FillsLeaf(start) && WellFormed(res) && WellFormed(op) && SameShape(res, op)
    requires forall k :: 0 <= k < |cells| ==> |cells[k]| >= Size(op)
    ensures fresh(accu) && accu.Length == Size(res)
    ensures var slots := Slots(NewCondenseOp(res, op, 0, 0));
            forall i :: 0 <= i < |slots| ==> FieldCondensed(f, start, slots[i], cells, accu[..])
  {
    hide KeepsLength, FillsLeaf, WellFormed, SameShape, NewCondenseOp, Slots, Size, RunStruct, HasStart, AllFit, RunLeaf;
    accu := NewAccu(start, res);
    ghost var init := accu[..];
    var t := NewCondenseOp(res, op, 0, 0);
    forall k | 0 <= k < |cells| ensures AllFit(Slots(t), |cells[k]|, |init|) { StructFits(res, op, |cells[k]|, |init|); }
    NoCells(f, t, init);
    for k := 0 to |cells|
      invariant fresh(accu) && accu.Length == |init| && accu[..] == RunStruct(f, t, cells[..k], init)
    {
      NextCell(f, t, cells, k, init);
      Accumulate(f, t, cells[k], accu);
    }
    assert cells[..|cells|] == cells;
    forall i | 0 <= i < |Slots(t)| ensures FieldCondensed(f, start, Slots(t)[i], cells, accu[..]) {
      FieldsFromConstructor(f, start, res, op, cells, init, i);
    }
  }

  predicate FieldCondensed(f: Operator, start: StartBytes, s: Slot, cells: seq<seq<byte>>, m: seq<byte>) {
    && s.ResEnd() <= |m| && (forall k :: 0 <= k < |cells| ==> s.OpEnd() <= |cells[k]|)
    && Field(m, s) == RunLeaf(f, s.res, s.op, Column(s, cells), start(s.res))
  }

  lemma NoCells(f: Operator, t: OpTree, init: seq<byte>)
    requires KeepsLength(f)
    ensures RunStruct(f, t, [], init) == init
  {
  }

  lemma NextCell(f: Operator, t: OpTree, cells: seq<seq<byte>>, k: nat, init: seq<byte>)
    requires KeepsLength(f) && k < |cells| && forall i :: 0 <= i < |cells| ==> AllFit(Slots(t), |cells[i]|, |init|)
    ensures AllFit(Slots(t), |cells[k]|, |RunStruct(f, t, cells[..k], init)|)
    ensures RunStruct(f, t, cells[..k + 1], init) == LeafSteps(f, Slots(t), cells[k], RunStruct(f, t, cells[..k], init))
  {
    hide KeepsLength, AllFit, LeafSteps;
    assert cells[..k + 1][..k] == cells[..k];
  }

  // ---------- integers of one, two and four bytes ----------

  predicate Integer(l: LeafType) { l.bytes == 1 || l.bytes == 2 || l.bytes == 4 }

  /** The number of values of an integer type, its lowest and its highest. */
  function Count(l: LeafType): int { if l.bytes == 1 then 0x100 else if l.bytes == 2 then 0x1_0000 else TWO32 }
  function Lo(l: LeafType): int { if l.signed then -(Count(l) / 2) else 0 }
  function Hi(l: LeafType): int { Lo(l) + Count(l) - 1 }
  predicate Has(l: LeafType, v: int) { Lo(l) <= v <= Hi(l) }

  function Power(n: nat): int { if n == 0 then 1 else 256 * Power(n - 1) }

  /** The value of bytes, least significant first, and back. */
  function Raw(b: seq<byte>): int { if b == [] then 0 else b[0] as int + 256 * Raw(b[1..]) }

  function Bytes(n: nat, v: nat): (b: seq<byte>)
    ensures |b| == n
  {
    if n == 0 then [] else [(v % 256) as byte] + Bytes(n - 1, v / 256)
  }

  lemma {:induction false} RawBounds(b: seq<byte>)
    ensures 0 <= Raw(b) < Power(|b|)
  {
    if b != [] { RawBounds(b[1..]); }
  }

  lemma {:induction false} RawOfBytes(n: nat, v: nat)
    requires v < Power(n)
    ensures Raw(Bytes(n, v)) == v
  {
    if n > 0 {
      RawOfBytes(n - 1, v / 256);
      assert Bytes(n, v)[1..] == Bytes(n - 1, v / 256);
    }
  }

  lemma PowerIsCount(l: LeafType)
    requires Integer(l)
    ensures Power(l.bytes) == Count(l)
  {
    assert Power(0) == 1 && Power(1) == 0x100 && Power(2) == 0x1_0000;
    assert Power(4) == 256 * Power(3) && Power(3) == 256 * Power(2);
  }

  /** `convertToCLong` and `convertToCULong`. */
  function Load(l: LeafType, b: seq<byte>): (v: int)
    requires Integer(l) && |b| == l.bytes
    ensures Has(l, v)
  {
    PowerIsCount(l);
    RawBounds(b);
    if l.signed && Raw(b) >= Count(l) / 2 then Raw(b) - Count(l) else Raw(b)
  }

  /** `makeFromCLong` and `makeFromCULong`: values outside the type become its lowest or highest one. */
  function Clamp(l: LeafType, v: int): (r: int)
    ensures Count(l) >= 1 && Has(l, r) && (Has(l, v) ==> r == v)
  {
    Max(Lo(l), Min(v, Hi(l)))
  }

  function Store(l: LeafType, v: int): (b: seq<byte>)
    requires Has(l, v)
    ensures |b| == l.bytes
  {
    Bytes(l.bytes, if v < 0 then v + Count(l) else v)
  }

  lemma LoadStored(l: LeafType, v: int)
    requires Integer(l) && Has(l, v)
    ensures Load(l, Store(l, v)) == v
  {
    hide Raw, Bytes, Power;
    PowerIsCount(l);
    RawOfBytes(l.bytes, if v < 0 then v + Count(l) else v);
  }

  /** Integers lie in memory from their lowest byte on, negative ones in two's complement. */
  lemma LoadExample()
    ensures Load(LeafType(4, true), [7, 1, 0, 0]) == 263 && Load(LeafType(2, true), [254, 255]) == -2
    ensures Load(LeafType(2, false), [254, 255]) == 65534
  {
    var b: seq<byte> := [7, 1, 0, 0];
    assert b[1..] == [1, 0, 0] && b[1..][1..] == [0, 0] && b[1..][1..][1..] == [0] && b[1..][1..][1..][1..] == [];
    assert Raw([0]) == 0 && Raw([0, 0]) == 0 && Raw([1, 0, 0]) == 1;
    var c: seq<byte> := [254, 255];
    assert c[1..] == [255] && c[1..][1..] == [];
  }

  /**
   `operator()` of the integer condensers on an external accumulator, without null values: MAX and MIN write only a
   better value.
   */
  function IntegerStep(fn: Fn, r: LeafType, o: LeafType, x: seq<byte>, y: seq<byte>): (z: seq<byte>)
    ensures |z| == |y|
  {
    if Integer(r) && Integer(o) && r.signed == o.signed && |x| == o.bytes && |y| == r.bytes then
      var longOp, longRes := Load(o, x), Load(r, y);
      var v := Combine(fn, r.signed, longRes, longOp);
      if !fn.SumOp? && v == longRes then y else Store(r, Clamp(r, v))
    else y
  }

  function IntegerOp(fn: Fn): Operator { (r: LeafType, o: LeafType, x: seq<byte>, y: seq<byte>) => IntegerStep(fn, r, o, x, y) }

  function IntegerStart(fn: Fn): StartBytes { (l: LeafType) => Store(l, Clamp(l, Neutral(fn, l.signed))) }

  /** The types `getResultType` pairs: the operand's own for MAX and MIN, four bytes for SUM. */
  function ResultLeaf(fn: Fn, o: LeafType): LeafType { if fn.SumOp? then LeafType(4, o.signed) else o }

  function ResultType(fn: Fn, t: CellType): CellType {
    match t
    case Leaf(l) => Leaf(ResultLeaf(fn, l))
    case Struct(es) => Struct(seq(|es|, i requires 0 <= i < |es| => ResultType(fn, es[i])))
  }

  predicate AllIntegers(t: CellType) {
    match t
    case Leaf(l) => Integer(l)
    case Struct(es) => forall i :: 0 <= i < |es| ==> AllIntegers(es[i])
  }

  lemma {:induction false} ResultShape(fn: Fn, t: CellType)
    requires WellFormed(t)
    ensures WellFormed(ResultType(fn, t)) && SameShape(ResultType(fn, t), t)
  {
    match t
    case Leaf(_) =>
    case Struct(es) => forall i | 0 <= i < |es| ensures WellFormed(ResultType(fn, es[i])) && SameShape(ResultType(fn, es[i]), es[i]) {
      ResultShape(fn, es[i]);
    }
  }

  function Values(o: LeafType, column: seq<seq<byte>>): (r: seq<int>)
    requires Integer(o) && forall k :: 0 <= k < |column| ==> |column[k]| == o.bytes
    ensures |r| == |column|
  {
    seq(|column|, k requires 0 <= k < |column| => Load(o, column[k]))
  }

  lemma StepValue(fn: Fn, o: LeafType, x: seq<byte>, y: seq<byte>)
    requires Integer(o) && |x| == o.bytes && |y| == ResultLeaf(fn, o).bytes
    ensures var r := ResultLeaf(fn, o);
            Load(r, IntegerStep(fn, r, o, x, y)) == Combine(fn, r.signed, Load(r, y), Load(o, x))
  {
    hide Load, Store;
    var r := ResultLeaf(fn, o);
    var v := Combine(fn, r.signed, Load(r, y), Load(o, x));
    assert Has(r, v);
    LoadStored(r, v);
  }

  lemma StartValue(fn: Fn, o: LeafType, cell: int)
    requires Integer(o) && Has(o, cell)
    ensures var r := ResultLeaf(fn, o);
            && Load(r, IntegerStart(fn)(r)) == Clamp(r, Neutral(fn, r.signed))
            && Combine(fn, r.signed, Clamp(r, Neutral(fn, r.signed)), cell) == cell && InRange(r.signed, cell)
  {
    hide Load, Store;
    var r := ResultLeaf(fn, o);
    LoadStored(r, Clamp(r, Neutral(fn, r.signed)));
  }

  /** A leaf condenser over integers: the maximum, the minimum, or the sum mod 2^32 of the column. */
  lemma {:induction false} IntegerRun(fn: Fn, o: LeafType, column: seq<seq<byte>>)
    requires Integer(o) && column != [] && forall k :: 0 <= k < |column| ==> |column[k]| == o.bytes
    ensures var r := ResultLeaf(fn, o);
            var field := RunLeaf(IntegerOp(fn), r, o, column, IntegerStart(fn)(r));
            |field| == r.bytes && Condensed(fn, r.signed, Values(o, column), Load(r, field))
  {
    hide Load, IntegerStep, Combine, Condensed, Clamp;
    var r, d := ResultLeaf(fn, o), |column| - 1;
    var front, start := column[..d], IntegerStart(fn)(r);
    var before := RunLeaf(IntegerOp(fn), r, o, front, start);
    StartValue(fn, o, Load(o, column[d]));
    if front == [] {
      assert before == start;
      StepValue(fn, o, column[d], start);
      CondensedOne(fn, r.signed, Load(o, column[d]));
      assert Values(o, column) == [Load(o, column[d])];
    } else {
      IntegerRun(fn, o, front);
      StepValue(fn, o, column[d], before);
      CondensedStep(fn, r.signed, Values(o, front), Load(r, before), Load(o, column[d]));
      assert Values(o, column) == Values(o, front) + [Load(o, column[d])];
    }
  }

  /** Result and operand of every slot are the paired integer types. */
  predicate IntegerSlot(fn: Fn, s: Slot) { Integer(s.op) && s.res == ResultLeaf(fn, s.op) }

  predicate IntegerSlots(fn: Fn, slots: seq<Slot>) { forall i :: 0 <= i < |slots| ==> IntegerSlot(fn, slots[i]) }

  lemma {:induction false} SlotTypes(fn: Fn, t: CellType, resOff: nat, opOff: nat)
    requires WellFormed(t) && AllIntegers(t) && WellFormed(ResultType(fn, t)) && SameShape(ResultType(fn, t), t)
    ensures IntegerSlots(fn, Slots(NewCondenseOp(ResultType(fn, t), t, resOff, opOff)))
  {
    hide ElementOffset;
    match t
    case Leaf(l) =>
      assert Slots(NewCondenseOp(ResultType(fn, t), t, resOff, opOff)) == [Slot(ResultLeaf(fn, l), l, resOff, opOff)];
    case Struct(es) =>
      var res := ResultType(fn, t);
      var ops := NewCondenseOp(res, t, resOff, opOff).elemOps;
      forall i | 0 <= i < |es| ensures IntegerSlots(fn, Slots(ops[i])) {
        SlotTypes(fn, es[i], resOff + ElementOffset(res.elems, i), opOff + ElementOffset(es, i));
      }
      ElementTypes(fn, ops);
  }

  lemma {:induction false} ElementTypes(fn: Fn, ops: seq<OpTree>)
    requires forall i :: 0 <= i < |ops| ==> IntegerSlots(fn, Slots(ops[i]))
    ensures IntegerSlots(fn, SlotsOf(ops))
  {
    hide IntegerSlots, Slots;
    if ops == [] {
      NoTypes(fn);
    } else {
      ElementTypes(fn, ops[..|ops| - 1]);
      JoinTypes(fn, SlotsOf(ops[..|ops| - 1]), Slots(ops[|ops| - 1]));
    }
  }

  lemma NoTypes(fn: Fn)
    ensures IntegerSlots(fn, [])
  {
  }

  lemma JoinTypes(fn: Fn, a: seq<Slot>, b: seq<Slot>)
    requires IntegerSlots(fn, a) && IntegerSlots(fn, b)
    ensures IntegerSlots(fn, a + b)
  {
  }

  lemma IntegersFit(fn: Fn)
    ensures KeepsLength(IntegerOp(fn)) && FillsLeaf(IntegerStart(fn))
  {
  }

  /** The field holds the maximum, the minimum, or the sum mod 2^32 of its column. */
  ghost predicate FieldMeaning(fn: Fn, s: Slot, cells: seq<seq<byte>>, m: seq<byte>) {
    && IntegerSlot(fn, s) && s.ResEnd() <= |m| && (forall k :: 0 <= k < |cells| ==> s.OpEnd() <= |cells[k]|)
    && Condensed(fn, s.res.signed, Values(s.op, Column(s, cells)), Load(s.res, Field(m, s)))
  }

  /**
   MAX, MIN and SUM of structs of integers, of any nesting and padding, from the constructor on: every field of the
   result is that of its column of the cells.
   */
  lemma StructOfIntegers(fn: Fn, t: CellType, cells: seq<seq<byte>>, accu: seq<byte>, i: nat)
    requires WellFormed(t) && AllIntegers(t) && cells != [] && WellFormed(ResultType(fn, t)) && SameShape(ResultType(fn, t), t)
    requires var slots := Slots(NewCondenseOp(ResultType(fn, t), t, 0, 0));
             i < |slots| && FieldCondensed(IntegerOp(fn), IntegerStart(fn), slots[i], cells, accu)
    ensures FieldMeaning(fn, Slots(NewCondenseOp(ResultType(fn, t), t, 0, 0))[i], cells, accu)
  {
    hide WellFormed, SameShape, NewCondenseOp, Slots, ResultType, RunLeaf, Load, Condensed, IntegerStart, IntegerOp;
    SlotTypes(fn, t, 0, 0);
    var s := Slots(NewCondenseOp(ResultType(fn, t), t, 0, 0))[i];
    assert IntegerSlot(fn, s);
    IntegerRun(fn, s.op, Column(s, cells));
  }

  /** A struct of a char and a short is padded to offsets 0 and 2; its sums are two longs at 0 and 4. */
  lemma PaddedExample()
    ensures var es := [Leaf(LeafType(1, false)), Leaf(LeafType(2, true))];
            && WellFormed(Struct(es)) && AllIntegers(Struct(es)) && ElementOffset(es, 1) == 2
            && var rs := [Leaf(LeafType(4, false)), Leaf(LeafType(4, true))];
               ResultType(SumOp, Struct(es)) == Struct(rs) && WellFormed(Struct(rs)) && ElementOffset(rs, 1) == 4
  {
    var es := [Leaf(LeafType(1, false)), Leaf(LeafType(2, true))];
    var rs := [Leaf(LeafType(4, false)), Leaf(LeafType(4, true))];
    assert ElementOffset(es, 0) == 0 && ElementOffset(rs, 0) == 0;
  }
}

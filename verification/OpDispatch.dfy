/**
 Choosing the function object of a binary cell operation.

 `GetResultType` infers the result type of an operation, `IsApplicable` says whether it exists, and
 `GetBinaryOp` builds the object that carries it out; on struct types the three call each other.
 `DispatchExact` says for which operands the object built for the inferred type is complete.
 */
module OpDispatch {
  import opened Prelude

  // The atomic part of `TypeEnum`; the code relies on this order.
  const ULONG := 0
  const USHORT := 1
  const CHAR := 2
  const BOOLTYPE := 3
  const LONG := 4
  const SHORT := 5
  const OCTET := 6
  const DOUBLE := 7
  const FLOAT := 8
  const COMPLEXTYPE1 := 9
  const COMPLEXTYPE2 := 10
  const STRUCT := 11

  type TypeCode = c: int | ULONG <= c <= COMPLEXTYPE2 witness ULONG

  /** Cell types. */
  datatype BaseType = Atomic(code: TypeCode) | Struct(elems: seq<Elem>) {
    function GetType(): int { if Struct? then STRUCT else code }
    predicate Integral() { GetType() <= OCTET }
    predicate Numerical() { GetType() <= FLOAT }
    predicate Complex() { COMPLEXTYPE1 <= GetType() <= COMPLEXTYPE2 }
    predicate Unsigned() { GetType() <= BOOLTYPE }
    predicate Signed() { LONG <= GetType() <= COMPLEXTYPE2 }
  }

  datatype Elem = Elem(name: string, ty: BaseType)

  datatype OpType =
    | Minus | Plus | MaxBinary | MinBinary | Div | Mult | IntDiv | Mod | Is | And | Or | Xor
    | Equal | Less | LessEqual | NotEqual | Greater | GreaterEqual
  {
    predicate Comparison() { Equal? || Less? || LessEqual? || NotEqual? || Greater? || GreaterEqual? }
    predicate Bitwise() { Is? || And? || Or? || Xor? }
    predicate MinMax() { MaxBinary? || MinBinary? }
    predicate Equality() { Equal? || NotEqual? }
    predicate OnComplex() { Minus? || Plus? || MaxBinary? || MinBinary? || Div? || Mult? }
  }

  /** The class of a primitive function object, by the C type it computes in. */
  datatype Family =
    | CharArith | BoolLogic | ULongArith | LongArith | DoubleArith
    | ComplexFirst | ComplexSecond | ComplexBoth
    | CharCompare | ULongCompare | LongCompare | DoubleCompare

  /** A function object: null, primitive, or a struct object with one object per element. */
  datatype BinaryOp =
    | Null
    | Prim(family: Family, op: OpType)
    | BinaryStruct(elemOps: seq<BinaryOp>)
    | MinMaxStruct(lessOps: seq<BinaryOp>, equalOps: seq<BinaryOp>)
    | StructConst(elemOps: seq<BinaryOp>)
    | ConstStruct(elemOps: seq<BinaryOp>)
    | CompareStruct(elemOps: seq<BinaryOp>)

  /** No null object at any depth: every call the object makes is defined. */
  predicate Complete(o: BinaryOp) {
    match o
    case Null => false
    case Prim(_, _) => true
    case BinaryStruct(es) => forall i :: 0 <= i < |es| ==> Complete(es[i])
    case StructConst(es) => forall i :: 0 <= i < |es| ==> Complete(es[i])
    case ConstStruct(es) => forall i :: 0 <= i < |es| ==> Complete(es[i])
    case CompareStruct(es) => forall i :: 0 <= i < |es| ==> Complete(es[i])
    case MinMaxStruct(ls, qs) => (forall i :: 0 <= i < |ls| ==> Complete(ls[i])) && (forall i :: 0 <= i < |qs| ==> Complete(qs[i]))
  }

  /**
   The C type an object of a family computes in suits the operands: characters and booleans are combined as such,
   integers as unsigned exactly if the result is unsigned or both compared operands are, and of a complex operation
   with one complex operand the other one is the scalar. The families of one operation exclude each other.
   */
  predicate FamilyFits(f: Family, op: OpType, res: int, a: int, b: int) {
    match f
    case CharArith => !op.Comparison() && !op.Bitwise() && res == CHAR && a == CHAR && b == CHAR
    case BoolLogic => op.Bitwise() && res == BOOLTYPE && a == BOOLTYPE && b == BOOLTYPE
    case ULongArith => !op.Comparison() && res <= BOOLTYPE && a <= OCTET && b <= OCTET
                       && !(a == b == res == (if op.Bitwise() then BOOLTYPE else CHAR))
    case LongArith => !op.Comparison() && LONG <= res <= OCTET && a <= OCTET && b <= OCTET
    case DoubleArith => op.OnComplex() && DOUBLE <= res <= FLOAT && a <= FLOAT && b <= FLOAT
    case ComplexFirst => op.OnComplex() && COMPLEXTYPE1 <= res <= COMPLEXTYPE2 && a <= FLOAT
    case ComplexSecond => op.OnComplex() && COMPLEXTYPE1 <= res <= COMPLEXTYPE2 && a > FLOAT && b <= FLOAT
    case ComplexBoth => op.OnComplex() && COMPLEXTYPE1 <= res <= COMPLEXTYPE2 && a > FLOAT && b > FLOAT
    case CharCompare => op.Comparison() && res == BOOLTYPE && a == CHAR && b == CHAR
    case ULongCompare => op.Comparison() && res == BOOLTYPE && a <= BOOLTYPE && b <= BOOLTYPE && !(a == b == CHAR)
    case LongCompare => op.Comparison() && res == BOOLTYPE && a <= OCTET && b <= OCTET && (a > BOOLTYPE || b > BOOLTYPE)
    case DoubleCompare => op.Comparison() && res == BOOLTYPE && a <= FLOAT && b <= FLOAT && (a > OCTET || b > OCTET)
  }

  lemma OneFamilyFits(f: Family, g: Family, op: OpType, res: int, a: int, b: int)
    requires FamilyFits(f, op, res, a, b) && FamilyFits(g, op, res, a, b)
    ensures f == g
  {
  }

  /**
   The object performs the operation on operands of the types: element by element on the elements in the same place,
   and every primitive part with the operation asked for, in a suitable family. MIN and MAX of structs order them by
   comparing elements with < and =. What is null is left to `Complete`.
   */
  predicate Performs(o: BinaryOp, op: OpType, res: BaseType, a: BaseType, b: BaseType) {
    match o
    case Null => true
    case Prim(f, p) => p == op && FamilyFits(f, op, res.GetType(), a.GetType(), b.GetType())
    case BinaryStruct(es) =>
      && !op.MinMax() && !op.Comparison() && res.Struct? && a.Struct? && b.Struct?
      && |es| == |res.elems| == |a.elems| == |b.elems|
      && forall i :: 0 <= i < |es| ==> Performs(es[i], op, res.elems[i].ty, a.elems[i].ty, b.elems[i].ty)
    case MinMaxStruct(ls, qs) =>
      && op.MinMax() && res.Struct? && a.Struct? && b.Struct?
      && |ls| == |qs| == |res.elems| == |a.elems| == |b.elems|
      && (forall i :: 0 <= i < |ls| ==> Performs(ls[i], Less, Atomic(BOOLTYPE), a.elems[i].ty, b.elems[i].ty))
      && (forall i :: 0 <= i < |qs| ==> Performs(qs[i], Equal, Atomic(BOOLTYPE), a.elems[i].ty, b.elems[i].ty))
    case StructConst(es) =>
      && !op.Comparison() && res.Struct? && a.Struct? && !b.Struct? && |es| == |a.elems|
      && forall i :: 0 <= i < |es| ==> Performs(es[i], op, ElemType(res, i), a.elems[i].ty, b)
    case ConstStruct(es) =>
      && !op.Comparison() && res.Struct? && !a.Struct? && b.Struct? && |es| == |b.elems|
      && forall i :: 0 <= i < |es| ==> Performs(es[i], op, ElemType(res, i), a, b.elems[i].ty)
    case CompareStruct(es) =>
      && op.Equality() && res == Atomic(BOOLTYPE) && a.Struct? && b.Struct? && |es| == |a.elems| == |b.elems|
      && forall i :: 0 <= i < |es| ==> Performs(es[i], op, res, a.elems[i].ty, b.elems[i].ty)
  }

  /** Nesting depth of a type; the recursion of the dispatch functions descends in it. */
  function Depth(t: BaseType): (d: nat)
    ensures t.Struct? ==> forall i :: 0 <= i < |t.elems| ==> Depth(t.elems[i].ty) < d
  {
    if t.Struct? then 1 + DepthAll(t.elems) else 0
  }

  function DepthAll(es: seq<Elem>): (d: nat)
    ensures forall i :: 0 <= i < |es| ==> Depth(es[i].ty) <= d
  {
    if es == [] then 0 else Max(Depth(es[0].ty), DepthAll(es[1..]))
  }

  /** `compatibleWith`: same shape and same atomic types; element names are ignored. */
  predicate Compatible(a: BaseType, b: BaseType) {
    if a.Struct? then
      b.Struct? && |a.elems| == |b.elems| &&
      forall i :: 0 <= i < |a.elems| ==> Compatible(a.elems[i].ty, b.elems[i].ty)
    else a.GetType() == b.GetType()
  }

  lemma {:induction false} CompatibleReflexive(a: BaseType)
    ensures Compatible(a, a)
  {
    if a.Struct? {
      forall i | 0 <= i < |a.elems| ensures Compatible(a.elems[i].ty, a.elems[i].ty) {
        CompatibleReflexive(a.elems[i].ty);
      }
    }
  }

  lemma {:induction false} CompatibleDepth(a: BaseType, b: BaseType)
    requires Compatible(a, b)
    ensures Depth(a) == Depth(b)
  {
    if a.Struct? {
      CompatibleDepthAll(a.elems, b.elems);
    }
  }

  lemma {:induction false} CompatibleDepthAll(as': seq<Elem>, bs: seq<Elem>)
    requires |as'| == |bs|
    requires forall i :: 0 <= i < |as'| ==> Compatible(as'[i].ty, bs[i].ty)
    ensures DepthAll(as') == DepthAll(bs)
  {
    if as' != [] {
      CompatibleDepth(as'[0].ty, bs[0].ty);
      CompatibleDepthAll(as'[1..], bs[1..]);
    }
  }

  // ---------- the dispatch ----------

  /** `getBinaryOp` up to the struct cases, in the order of the code. */
  function PrimitiveOp(op: OpType, res: BaseType, a: BaseType, b: BaseType): (o: BinaryOp)
    ensures o.Null? || o.Prim?
  {
    if res.GetType() == CHAR && a.GetType() == CHAR && b.GetType() == CHAR && (op.OnComplex() || op.IntDiv? || op.Mod?) then Prim(CharArith, op)
    else if res.GetType() == BOOLTYPE && a.GetType() == BOOLTYPE && b.GetType() == BOOLTYPE && (op.And? || op.Or? || op.Xor?) then Prim(BoolLogic, op)
    else if res.Unsigned() && a.Integral() && b.Integral() && !op.Comparison() && !op.Is? then Prim(ULongArith, op)
    else if (res.GetType() == LONG || res.GetType() == SHORT || res.GetType() == OCTET) && a.Integral() && b.Integral() && !op.Comparison() && !op.Is? then
      Prim(LongArith, op)
    else if (res.GetType() == FLOAT || res.GetType() == DOUBLE) && a.Numerical() && b.Numerical() && op.OnComplex() then Prim(DoubleArith, op)
    else if res.Complex() && op.OnComplex() then
      if a.GetType() < COMPLEXTYPE1 then Prim(ComplexFirst, op)
      else if b.GetType() < COMPLEXTYPE1 then Prim(ComplexSecond, op)
      else Prim(ComplexBoth, op)
    else if res.GetType() == BOOLTYPE && a.GetType() == CHAR && b.GetType() == CHAR && op.Comparison() then Prim(CharCompare, op)
    else if res.GetType() == BOOLTYPE && a.Unsigned() && b.Unsigned() && op.Comparison() then Prim(ULongCompare, op)
    else if res.GetType() == BOOLTYPE && a.Integral() && b.Integral() && op.Comparison() then Prim(LongCompare, op)
    else if res.GetType() == BOOLTYPE && a.Numerical() && b.Numerical() && op.Comparison() then Prim(DoubleCompare, op)
    else Null
  }

  /** `getBinaryOp` */
  function GetBinaryOp(op: OpType, res: BaseType, a: BaseType, b: BaseType): BinaryOp
    decreases Max(Depth(a), Depth(b)), 2
  {
    if PrimitiveOp(op, res, a, b) != Null then PrimitiveOp(op, res, a, b)
    else if res.GetType() == BOOLTYPE && a.Struct? && Compatible(a, b) && op.Equality() then NewCompareStruct(op, a, b)
    else if res.Struct? && a.Struct? && b.Struct? then
      if !op.Comparison() && IsApplicableOnStruct(op, a) && Compatible(res, a) && Compatible(res, b)
      then CompatibleDepth(res, a); NewBinaryStruct(op, res)
      else Null
    else if res.Struct? && a.Struct? then
      if !op.Comparison() && IsApplicableOnStructConst(op, a, b) then NewStructConst(op, res, a, b) else Null
    else if res.Struct? && b.Struct? then
      if !op.Comparison() && IsApplicableOnStructConst(op, b, a) then NewConstStruct(op, res, a, b) else Null
    else Null
  }

  /** Constructors of `OpEQUALStruct` and `OpNOTEQUALStruct`. */
  function NewCompareStruct(op: OpType, a: BaseType, b: BaseType): (o: BinaryOp)
    ensures o.CompareStruct?
    requires a.Struct? && Compatible(a, b)
    decreases Max(Depth(a), Depth(b)), 1
  {
    CompareStruct(seq(|a.elems|, i requires 0 <= i < |a.elems| =>
      GetBinaryOp(op, Atomic(BOOLTYPE), a.elems[i].ty, b.elems[i].ty)))
  }

  /** Constructor of `OpBinaryStruct`; MIN and MAX compare elements instead of combining them. */
  function NewBinaryStruct(op: OpType, t: BaseType): (o: BinaryOp)
    ensures o.BinaryStruct? || o.MinMaxStruct?
    requires t.Struct?
    decreases Depth(t), 1
  {
    if op.MinMax() then
      MinMaxStruct(
        seq(|t.elems|, i requires 0 <= i < |t.elems| => GetBinaryOp(Less, Atomic(BOOLTYPE), t.elems[i].ty, t.elems[i].ty)),
        seq(|t.elems|, i requires 0 <= i < |t.elems| => GetBinaryOp(Equal, Atomic(BOOLTYPE), t.elems[i].ty, t.elems[i].ty)))
    else
      BinaryStruct(seq(|t.elems|, i requires 0 <= i < |t.elems| =>
        GetBinaryOp(op, t.elems[i].ty, t.elems[i].ty, t.elems[i].ty)))
  }

  /** Constructor of `OpBinaryStructConst`. */
  function NewStructConst(op: OpType, res: BaseType, a: BaseType, b: BaseType): (o: BinaryOp)
    ensures o.StructConst?
    requires res.Struct? && a.Struct? && !b.Struct?
    decreases Depth(a), 1
  {
    StructConst(seq(|a.elems|, i requires 0 <= i < |a.elems| =>
      GetBinaryOp(op, ElemType(res, i), a.elems[i].ty, b)))
  }

  /** Constructor of `OpBinaryConstStruct`. */
  function NewConstStruct(op: OpType, res: BaseType, a: BaseType, b: BaseType): (o: BinaryOp)
    ensures o.ConstStruct?
    requires res.Struct? && b.Struct? && !a.Struct?
    decreases Depth(b), 1
  {
    ConstStruct(seq(|b.elems|, i requires 0 <= i < |b.elems| =>
      GetBinaryOp(op, ElemType(res, i), a, b.elems[i].ty)))
  }

  /** Element i of the result struct; the callers below always ask for one that exists. */
  function ElemType(res: BaseType, i: nat): BaseType
    requires res.Struct?
  {
    if i < |res.elems| then res.elems[i].ty else Struct([])
  }

  predicate IsApplicableOnStruct(op: OpType, a: BaseType)
    requires a.Struct?
    decreases Depth(a), 0
  {
    forall i :: 0 <= i < |a.elems| ==> IsApplicable(op, a.elems[i].ty, a.elems[i].ty)
  }

  predicate IsApplicableOnStructConst(op: OpType, a: BaseType, b: BaseType)
    requires a.Struct? && !b.Struct?
    decreases Depth(a), 0
  {
    forall i :: 0 <= i < |a.elems| ==> IsApplicable(op, a.elems[i].ty, b)
  }

  /** The type `isApplicable` tries the operation with; not the type `GetResultType` reports. */
  function TrialType(op: OpType, a: BaseType, b: BaseType): BaseType {
    if op.Comparison() then Atomic(BOOLTYPE)
    else if a.Struct? then a
    else if b.Struct? then b
    else if a.GetType() == COMPLEXTYPE2 || b.GetType() == COMPLEXTYPE2 then Atomic(COMPLEXTYPE2)
    else if a.GetType() == COMPLEXTYPE1 || b.GetType() == COMPLEXTYPE1 then Atomic(COMPLEXTYPE1)
    else if op.Bitwise() then Atomic(LONG)
    else if op.Mod? || op.IntDiv? then
      if a.GetType() == LONG || b.GetType() == LONG then Atomic(LONG)
      else if a.GetType() == ULONG || b.GetType() == ULONG then Atomic(ULONG)
      else if a.GetType() == CHAR || b.GetType() == CHAR then Atomic(CHAR)
      else Atomic(DOUBLE)
    else Atomic(DOUBLE)
  }

  predicate IsApplicable(op: OpType, a: BaseType, b: BaseType)
    decreases Max(Depth(a), Depth(b)), 3
  {
    GetBinaryOp(op, TrialType(op, a, b), a, b) != Null
  }

  /** The strongest of two atomic types, signed as soon as one of them is. */
  function StrongestType(a: BaseType, b: BaseType): BaseType {
    if a.Signed() != b.Signed() then
      var s, u := if a.Signed() then a else b, if a.Signed() then b else a;
      if s.GetType() == COMPLEXTYPE1 || s.GetType() == COMPLEXTYPE2 || s.GetType() == FLOAT || s.GetType() == DOUBLE || s.GetType() == LONG then s
      else if u.GetType() == USHORT then Atomic(SHORT)
      else if s.GetType() == SHORT then s
      else Atomic(OCTET)
    else if a.GetType() == COMPLEXTYPE2 || b.GetType() == COMPLEXTYPE2 then Atomic(COMPLEXTYPE2)
    else if a.GetType() == COMPLEXTYPE1 || b.GetType() == COMPLEXTYPE1 then Atomic(COMPLEXTYPE1)
    else if a.GetType() == DOUBLE || b.GetType() == DOUBLE then Atomic(DOUBLE)
    else if a.GetType() == FLOAT || b.GetType() == FLOAT then Atomic(FLOAT)
    else if a.GetType() <= b.GetType() then a else b
  }

  function GetResultType(op: OpType, a: BaseType, b: BaseType): Option<BaseType>
    decreases Max(Depth(a), Depth(b)), 4
  {
    if !IsApplicable(op, a, b) then None
    else if op.Div? && a.Integral() && b.Integral() then Some(Atomic(DOUBLE))
    else if a.Struct? then
      if op.Equality() then Some(Atomic(BOOLTYPE))
      else if b.Numerical() then ResultStruct(op, a.elems, b, true)
      else Some(a)
    else if b.Struct? then
      if a.Numerical() then ResultStruct(op, b.elems, a, false)
      else Some(b)
    else if op.Comparison() then Some(Atomic(BOOLTYPE))
    else Some(StrongestType(a, b))
  }

  /** The struct of the element-wise result types with scalar c, on the right or on the left. */
  function ResultStruct(op: OpType, es: seq<Elem>, c: BaseType, right: bool): (r: Option<BaseType>)
    requires c.Numerical()
    ensures r.Some? ==> r.value.Struct? && |r.value.elems| == |es|
    decreases DepthAll(es), 5, es
  {
    if es == [] then Some(Struct([])) else
      var first := if right then GetResultType(op, es[0].ty, c) else GetResultType(op, c, es[0].ty);
      var rest := ResultStruct(op, es[1..], c, right);
      if first.None? || rest.None? then None
      else Some(Struct([Elem(es[0].name, first.value)] + rest.value.elems))
  }

  // ---------- when the built object is complete ----------

  predicate LeavesComplex(t: BaseType) {
    if t.Struct? then forall i :: 0 <= i < |t.elems| ==> LeavesComplex(t.elems[i].ty) else t.Complex()
  }

  predicate LeavesNumerical(t: BaseType) {
    if t.Struct? then forall i :: 0 <= i < |t.elems| ==> LeavesNumerical(t.elems[i].ty) else t.Numerical()
  }

  predicate FieldsNumerical(t: BaseType)
    requires t.Struct?
  {
    forall i :: 0 <= i < |t.elems| ==> t.elems[i].ty.Numerical()
  }

  /**
   The operands for which the object built for the inferred result type has no null part:
   MIN and MAX of structs need fields that can be ordered, equality of structs needs leaves that can be
   compared, and a complex scalar needs complex leaves, because the result type is then the struct itself.
   */
  predicate Buildable(op: OpType, a: BaseType, b: BaseType) {
    if a.Struct? && b.Struct? then
      if op.MinMax() then FieldsNumerical(a)
      else if op.Equality() then LeavesNumerical(a)
      else true
    else if a.Struct? && b.Complex() then LeavesComplex(a)
    else if b.Struct? && a.Complex() then LeavesComplex(b)
    else true
  }

  /** What `GetResultType` yields for applicable atomic operands. */
  function AtomicResultType(op: OpType, a: BaseType, b: BaseType): BaseType {
    if op.Div? && a.Integral() && b.Integral() then Atomic(DOUBLE)
    else if op.Comparison() then Atomic(BOOLTYPE)
    else StrongestType(a, b)
  }

  lemma PrimitiveSoundArithmetic(op: OpType, a: BaseType, b: BaseType)
    requires a.Numerical() && b.Numerical() && op.OnComplex()
    ensures PrimitiveOp(op, AtomicResultType(op, a, b), a, b) != Null
  {
  }

  lemma PrimitiveSound(op: OpType, a: BaseType, b: BaseType)
    requires !a.Struct? && !b.Struct? && PrimitiveOp(op, TrialType(op, a, b), a, b) != Null
    ensures PrimitiveOp(op, AtomicResultType(op, a, b), a, b) != Null
  {
    if op.OnComplex() && a.Numerical() && b.Numerical() { PrimitiveSoundArithmetic(op, a, b); }
  }

  lemma AtomicUnfold(op: OpType, a: BaseType, b: BaseType)
    requires !a.Struct? && !b.Struct?
    ensures IsApplicable(op, a, b) <==> PrimitiveOp(op, TrialType(op, a, b), a, b) != Null
    ensures forall r: BaseType :: !r.Struct? ==> GetBinaryOp(op, r, a, b) == PrimitiveOp(op, r, a, b)
    ensures GetResultType(op, a, b) == if IsApplicable(op, a, b) then Some(AtomicResultType(op, a, b)) else None
  {
    hide PrimitiveOp, StrongestType;
    assert !TrialType(op, a, b).Struct?;
  }

  /** On atomic operands the inferred type always has a function object. */
  lemma AtomicSound(op: OpType, a: BaseType, b: BaseType)
    requires !a.Struct? && !b.Struct? && IsApplicable(op, a, b)
    ensures GetResultType(op, a, b).Some?
    ensures var r := GetResultType(op, a, b).value;
            !r.Struct? && GetBinaryOp(op, r, a, b) == PrimitiveOp(op, r, a, b) && PrimitiveOp(op, r, a, b) != Null
  {
    hide PrimitiveOp, GetBinaryOp, GetResultType, TrialType;
    AtomicUnfold(op, a, b);
    PrimitiveSound(op, a, b);
  }

  /** A struct object is never primitive: the operands of `PrimitiveOp` are atomic. */
  lemma PrimitiveIsAtomic(op: OpType, res: BaseType, a: BaseType, b: BaseType)
    requires res.Struct? || (res.GetType() == BOOLTYPE && (a.Struct? || b.Struct?))
    ensures PrimitiveOp(op, res, a, b) == Null
  {
  }

  lemma StructConstUnfold(op: OpType, r: BaseType, t: BaseType, c: BaseType)
    requires t.Struct? && !c.Struct?
    ensures GetBinaryOp(op, Atomic(BOOLTYPE), t, c) == Null && GetBinaryOp(op, Atomic(BOOLTYPE), c, t) == Null
    ensures r.Struct? && (op.Comparison() || !IsApplicableOnStructConst(op, t, c)) ==>
              GetBinaryOp(op, r, t, c) == Null && GetBinaryOp(op, r, c, t) == Null
    ensures r.Struct? && !op.Comparison() && IsApplicableOnStructConst(op, t, c) ==>
              GetBinaryOp(op, r, t, c) == NewStructConst(op, r, t, c) && GetBinaryOp(op, r, c, t) == NewConstStruct(op, r, c, t)
  {
    hide PrimitiveOp, Depth, Compatible, NewStructConst, NewConstStruct;
    PrimitiveIsAtomic(op, Atomic(BOOLTYPE), t, c);
    PrimitiveIsAtomic(op, Atomic(BOOLTYPE), c, t);
    if r.Struct? {
      PrimitiveIsAtomic(op, r, t, c);
      PrimitiveIsAtomic(op, r, c, t);
    }
    NotCompatible(t, c);
  }

  lemma ScalarUnfold(op: OpType, t: BaseType, c: BaseType)
    requires t.Struct? && !c.Struct?
    ensures IsApplicable(op, t, c) <==> !op.Comparison() && IsApplicableOnStructConst(op, t, c)
    ensures IsApplicable(op, c, t) <==> !op.Comparison() && IsApplicableOnStructConst(op, t, c)
    ensures forall r: BaseType :: r.Struct? && IsApplicable(op, t, c) ==>
              GetBinaryOp(op, r, t, c) == NewStructConst(op, r, t, c) && GetBinaryOp(op, r, c, t) == NewConstStruct(op, r, c, t)
  {
    hide GetBinaryOp, IsApplicableOnStructConst, NewStructConst, NewConstStruct;
    forall r: BaseType | r.Struct?
      ensures op.Comparison() || !IsApplicableOnStructConst(op, t, c) ==>
                GetBinaryOp(op, r, t, c) == Null && GetBinaryOp(op, r, c, t) == Null
      ensures !op.Comparison() && IsApplicableOnStructConst(op, t, c) ==>
                GetBinaryOp(op, r, t, c) == NewStructConst(op, r, t, c) && GetBinaryOp(op, r, c, t) == NewConstStruct(op, r, c, t)
    {
      StructConstUnfold(op, r, t, c);
    }
    StructConstUnfold(op, t, t, c);
  }

  lemma NotCompatible(t: BaseType, c: BaseType)
    requires t.Struct? && !c.Struct?
    ensures !Compatible(t, c) && !Compatible(c, t)
  {
  }

  /** Element i of an inferred struct is the inferred type of element i. */
  lemma {:induction false} ResultStructAt(op: OpType, es: seq<Elem>, c: BaseType, right: bool, i: nat)
    requires c.Numerical() && i < |es| && ResultStruct(op, es, c, right).Some?
    ensures var t := if right then GetResultType(op, es[i].ty, c) else GetResultType(op, c, es[i].ty);
            t.Some? && ResultStruct(op, es, c, right).value.elems[i] == Elem(es[i].name, t.value)
  {
    if i > 0 { ResultStructAt(op, es[1..], c, right, i - 1); }
  }

  lemma {:induction false} ResultStructExists(op: OpType, es: seq<Elem>, c: BaseType, right: bool)
    requires c.Numerical()
    requires forall i :: 0 <= i < |es| ==>
               (if right then GetResultType(op, es[i].ty, c) else GetResultType(op, c, es[i].ty)).Some?
    ensures ResultStruct(op, es, c, right).Some?
  {
    if es != [] { ResultStructExists(op, es[1..], c, right); }
  }

  lemma PrimitiveSwap(op: OpType, a: BaseType, b: BaseType)
    requires !a.Struct? && !b.Struct?
    ensures PrimitiveOp(op, TrialType(op, a, b), a, b) != Null <==> PrimitiveOp(op, TrialType(op, b, a), b, a) != Null
  {
    assert TrialType(op, a, b) == TrialType(op, b, a);
  }

  /** Applicability with an atomic operand does not depend on its side. */
  lemma ApplicableSwap(op: OpType, t: BaseType, c: BaseType)
    requires !c.Struct?
    ensures IsApplicable(op, t, c) <==> IsApplicable(op, c, t)
  {
    hide PrimitiveOp, GetBinaryOp, IsApplicable, TrialType, GetResultType;
    if t.Struct? {
      ScalarUnfold(op, t, c);
    } else {
      AtomicUnfold(op, t, c);
      AtomicUnfold(op, c, t);
      PrimitiveSwap(op, t, c);
    }
  }

  /** The inferred type exists exactly for the applicable operations. */
  lemma {:induction false} ResultTypeIffApplicable(op: OpType, a: BaseType, b: BaseType)
    ensures GetResultType(op, a, b).Some? <==> IsApplicable(op, a, b)
    decreases Max(Depth(a), Depth(b))
  {
    hide PrimitiveOp, IsApplicable, GetBinaryOp, TrialType, StrongestType;
    if IsApplicable(op, a, b) {
      if a.Struct? && b.Numerical() {
        ScalarUnfold(op, a, b);
        forall i | 0 <= i < |a.elems| ensures GetResultType(op, a.elems[i].ty, b).Some? {
          ResultTypeIffApplicable(op, a.elems[i].ty, b);
        }
        ResultStructExists(op, a.elems, b, true);
      } else if b.Struct? && a.Numerical() {
        ScalarUnfold(op, b, a);
        forall i | 0 <= i < |b.elems| ensures GetResultType(op, a, b.elems[i].ty).Some? {
          ApplicableSwap(op, b.elems[i].ty, a);
          ResultTypeIffApplicable(op, a, b.elems[i].ty);
        }
        ResultStructExists(op, b.elems, a, false);
      }
    }
  }

  lemma StructPairUnfold(op: OpType, r: BaseType, a: BaseType, b: BaseType)
    requires a.Struct? && b.Struct? && r.Struct?
    ensures GetBinaryOp(op, Atomic(BOOLTYPE), a, b) ==
            if op.Equality() && Compatible(a, b) then NewCompareStruct(op, a, b) else Null
    ensures GetBinaryOp(op, r, a, b) ==
            if !op.Comparison() && IsApplicableOnStruct(op, a) && Compatible(r, a) && Compatible(r, b)
            then NewBinaryStruct(op, r) else Null
  {
    hide PrimitiveOp, Depth, Compatible, NewCompareStruct, NewBinaryStruct;
    PrimitiveIsAtomic(op, Atomic(BOOLTYPE), a, b);
    PrimitiveIsAtomic(op, r, a, b);
  }

  lemma StructUnfold(op: OpType, a: BaseType, b: BaseType)
    requires a.Struct? && b.Struct?
    ensures IsApplicable(op, a, b) <==>
            Compatible(a, b) && if op.Comparison() then op.Equality() else IsApplicableOnStruct(op, a)
    ensures IsApplicable(op, a, b) && !op.Comparison() ==> GetBinaryOp(op, a, a, b) == NewBinaryStruct(op, a)
    ensures op.Equality() && Compatible(a, b) ==> GetBinaryOp(op, Atomic(BOOLTYPE), a, b) == NewCompareStruct(op, a, b)
  {
    hide GetBinaryOp, IsApplicableOnStruct, Compatible, NewCompareStruct, NewBinaryStruct;
    CompatibleReflexive(a);
    StructPairUnfold(op, a, a, b);
  }

  /** Combining a struct with itself: everything but MIN and MAX is complete at every depth. */
  lemma {:induction false} SameTypeComplete(op: OpType, t: BaseType)
    requires IsApplicable(op, t, t) && !op.Comparison() && !op.MinMax()
    ensures Complete(GetBinaryOp(op, t, t, t))
  {
    hide PrimitiveOp, IsApplicable, GetBinaryOp, TrialType, Compatible;
    if t.Struct? {
      StructUnfold(op, t, t);
      forall i | 0 <= i < |t.elems| ensures Complete(GetBinaryOp(op, t.elems[i].ty, t.elems[i].ty, t.elems[i].ty)) {
        SameTypeComplete(op, t.elems[i].ty);
      }
    } else {
      AtomicUnfold(op, t, t);
      SameTypePrimitive(op, t);
    }
  }

  lemma SameTypePrimitive(op: OpType, t: BaseType)
    requires !t.Struct? && !op.Comparison() && PrimitiveOp(op, TrialType(op, t, t), t, t) != Null
    ensures PrimitiveOp(op, t, t, t) != Null
  {
  }

  /** Ordering two fields succeeds exactly for numerical fields, comparing them exactly for numerical leaves. */
  lemma {:induction false} ComparisonComplete(op: OpType, a: BaseType, b: BaseType)
    requires Compatible(a, b) && op.Comparison()
    ensures op.Equality() ==> (Complete(GetBinaryOp(op, Atomic(BOOLTYPE), a, b)) <==> LeavesNumerical(a))
    ensures !op.Equality() ==> (Complete(GetBinaryOp(op, Atomic(BOOLTYPE), a, b)) <==> a.Numerical())
  {
    hide PrimitiveOp, GetBinaryOp, IsApplicable, TrialType, IsApplicableOnStruct;
    if a.Struct? {
      StructPairUnfold(op, a, a, b);
      if op.Equality() {
        forall i | 0 <= i < |a.elems|
          ensures Complete(GetBinaryOp(op, Atomic(BOOLTYPE), a.elems[i].ty, b.elems[i].ty)) <==> LeavesNumerical(a.elems[i].ty)
        {
          ComparisonComplete(op, a.elems[i].ty, b.elems[i].ty);
        }
        var es := NewCompareStruct(op, a, b).elemOps;
        assert forall i :: 0 <= i < |es| ==> es[i] == GetBinaryOp(op, Atomic(BOOLTYPE), a.elems[i].ty, b.elems[i].ty);
        assert (forall i :: 0 <= i < |es| ==> Complete(es[i])) <==> forall i :: 0 <= i < |es| ==> Complete(es[i]);
      }
    } else {
      AtomicUnfold(op, a, b);
      ComparisonPrimitive(op, a, b);
    }
  }

  lemma ComparisonPrimitive(op: OpType, a: BaseType, b: BaseType)
    requires !a.Struct? && a.GetType() == b.GetType() && op.Comparison()
    ensures PrimitiveOp(op, Atomic(BOOLTYPE), a, b) != Null <==> a.Numerical()
  {
  }

  /** With a numerical scalar on the right, the object for the inferred type is complete at every depth. */
  lemma {:induction false} ScalarRightComplete(op: OpType, t: BaseType, c: BaseType)
    requires c.Numerical() && IsApplicable(op, t, c)
    ensures GetResultType(op, t, c).Some? && Complete(GetBinaryOp(op, GetResultType(op, t, c).value, t, c))
  {
    hide PrimitiveOp, IsApplicable, GetBinaryOp, TrialType, StrongestType;
    ResultTypeIffApplicable(op, t, c);
    if t.Struct? {
      ScalarUnfold(op, t, c);
      var r := GetResultType(op, t, c).value;
      assert r == ResultStruct(op, t.elems, c, true).value;
      forall i | 0 <= i < |t.elems| ensures Complete(GetBinaryOp(op, ElemType(r, i), t.elems[i].ty, c)) {
        ResultStructAt(op, t.elems, c, true, i);
        ScalarRightComplete(op, t.elems[i].ty, c);
      }
    } else {
      AtomicSound(op, t, c);
    }
  }

  lemma {:induction false} ScalarLeftComplete(op: OpType, c: BaseType, t: BaseType)
    requires c.Numerical() && IsApplicable(op, c, t)
    ensures GetResultType(op, c, t).Some? && Complete(GetBinaryOp(op, GetResultType(op, c, t).value, c, t))
    decreases t
  {
    hide PrimitiveOp, IsApplicable, GetBinaryOp, TrialType, StrongestType;
    ResultTypeIffApplicable(op, c, t);
    if t.Struct? {
      ScalarUnfold(op, t, c);
      var r := GetResultType(op, c, t).value;
      assert r == ResultStruct(op, t.elems, c, false).value;
      forall i | 0 <= i < |t.elems| ensures Complete(GetBinaryOp(op, ElemType(r, i), c, t.elems[i].ty)) {
        ResultStructAt(op, t.elems, c, false, i);
        ApplicableSwap(op, t.elems[i].ty, c);
        ScalarLeftComplete(op, c, t.elems[i].ty);
      }
    } else {
      AtomicSound(op, c, t);
    }
  }

  lemma ComplexPrimitive(op: OpType, t: BaseType, c: BaseType)
    requires !t.Struct? && c.Complex() && !op.Comparison() && PrimitiveOp(op, TrialType(op, t, c), t, c) != Null
    ensures PrimitiveOp(op, t, t, c) != Null <==> t.Complex()
    ensures PrimitiveOp(op, t, c, t) != Null <==> t.Complex()
  {
  }

  /** With a complex scalar the inferred type is the struct itself, which holds the result only if it is complex. */
  lemma {:induction false} ComplexScalarComplete(op: OpType, t: BaseType, c: BaseType)
    requires c.Complex() && IsApplicable(op, t, c) && !op.Comparison()
    ensures Complete(GetBinaryOp(op, t, t, c)) <==> LeavesComplex(t)
    ensures Complete(GetBinaryOp(op, t, c, t)) <==> LeavesComplex(t)
  {
    hide PrimitiveOp, IsApplicable, GetBinaryOp, TrialType, StrongestType;
    if t.Struct? {
      ScalarUnfold(op, t, c);
      var right, left := NewStructConst(op, t, t, c).elemOps, NewConstStruct(op, t, c, t).elemOps;
      forall i | 0 <= i < |t.elems|
        ensures Complete(right[i]) <==> LeavesComplex(t.elems[i].ty)
        ensures Complete(left[i]) <==> LeavesComplex(t.elems[i].ty)
      {
        ComplexScalarComplete(op, t.elems[i].ty, c);
      }
    } else {
      AtomicUnfold(op, t, c);
      AtomicUnfold(op, c, t);
      ComplexPrimitive(op, t, c);
    }
  }

  lemma MinMaxComplete(op: OpType, t: BaseType)
    requires t.Struct? && op.MinMax()
    ensures Complete(NewBinaryStruct(op, t)) <==> FieldsNumerical(t)
  {
    hide PrimitiveOp, GetBinaryOp, Compatible;
    var less, equal := NewBinaryStruct(op, t).lessOps, NewBinaryStruct(op, t).equalOps;
    forall i | 0 <= i < |t.elems|
      ensures Complete(less[i]) <==> t.elems[i].ty.Numerical()
      ensures t.elems[i].ty.Numerical() ==> Complete(equal[i])
    {
      CompatibleReflexive(t.elems[i].ty);
      ComparisonComplete(Less, t.elems[i].ty, t.elems[i].ty);
      ComparisonComplete(Equal, t.elems[i].ty, t.elems[i].ty);
    }
  }

  // ---------- the object performs the operation ----------

  lemma PrimitivePerforms(op: OpType, res: BaseType, a: BaseType, b: BaseType)
    ensures var o := PrimitiveOp(op, res, a, b);
            o.Prim? ==> o.op == op && FamilyFits(o.family, op, res.GetType(), a.GetType(), b.GetType())
  {
  }

  /** Compatible types are served by the same object. */
  lemma {:induction false} PerformsCompatible(o: BinaryOp, op: OpType, r: BaseType, a: BaseType, b: BaseType,
                                              r': BaseType, a': BaseType, b': BaseType)
    requires Performs(o, op, r, a, b) && Compatible(r, r') && Compatible(a, a') && Compatible(b, b')
    ensures Performs(o, op, r', a', b')
    decreases o
  {
    match o
    case Null =>
    case Prim(_, _) =>
    case BinaryStruct(es) =>
      forall i | 0 <= i < |es| ensures Performs(es[i], op, r'.elems[i].ty, a'.elems[i].ty, b'.elems[i].ty) {
        PerformsCompatible(es[i], op, r.elems[i].ty, a.elems[i].ty, b.elems[i].ty, r'.elems[i].ty, a'.elems[i].ty, b'.elems[i].ty);
      }
    case MinMaxStruct(ls, qs) =>
      var truth := Atomic(BOOLTYPE);
      forall i | 0 <= i < |ls|
        ensures Performs(ls[i], Less, truth, a'.elems[i].ty, b'.elems[i].ty) && Performs(qs[i], Equal, truth, a'.elems[i].ty, b'.elems[i].ty)
      {
        PerformsCompatible(ls[i], Less, truth, a.elems[i].ty, b.elems[i].ty, truth, a'.elems[i].ty, b'.elems[i].ty);
        PerformsCompatible(qs[i], Equal, truth, a.elems[i].ty, b.elems[i].ty, truth, a'.elems[i].ty, b'.elems[i].ty);
      }
    case StructConst(es) =>
      forall i | 0 <= i < |es| ensures Performs(es[i], op, ElemType(r', i), a'.elems[i].ty, b') {
        PerformsCompatible(es[i], op, ElemType(r, i), a.elems[i].ty, b, ElemType(r', i), a'.elems[i].ty, b');
      }
    case ConstStruct(es) =>
      forall i | 0 <= i < |es| ensures Performs(es[i], op, ElemType(r', i), a', b'.elems[i].ty) {
        PerformsCompatible(es[i], op, ElemType(r, i), a, b.elems[i].ty, ElemType(r', i), a', b'.elems[i].ty);
      }
    case CompareStruct(es) =>
      forall i | 0 <= i < |es| ensures Performs(es[i], op, r', a'.elems[i].ty, b'.elems[i].ty) {
        PerformsCompatible(es[i], op, r, a.elems[i].ty, b.elems[i].ty, r', a'.elems[i].ty, b'.elems[i].ty);
      }
  }

  /** Whatever is built, for any operands and any result type, performs the operation asked for. */
  lemma {:induction false} BuiltPerforms(op: OpType, res: BaseType, a: BaseType, b: BaseType)
    ensures Performs(GetBinaryOp(op, res, a, b), op, res, a, b)
    decreases Max(Depth(a), Depth(b)), 1
  {
    hide PrimitiveOp, IsApplicableOnStruct, IsApplicableOnStructConst, FamilyFits, NewCompareStruct, NewBinaryStruct,
         NewStructConst, NewConstStruct, Compatible, Depth;
    PrimitivePerforms(op, res, a, b);
    var o := GetBinaryOp(op, res, a, b);
    if o.Null? || o.Prim? {
    } else if o.CompareStruct? {
      ComparePerforms(op, a, b);
    } else if o.BinaryStruct? || o.MinMaxStruct? {
      CompatibleDepth(res, a);
      StructPerforms(op, res, a, b);
    } else {
      ScalarPerforms(op, res, a, b);
    }
  }

  lemma {:induction false} ComparePerforms(op: OpType, a: BaseType, b: BaseType)
    requires a.Struct? && Compatible(a, b) && op.Equality()
    ensures Performs(NewCompareStruct(op, a, b), op, Atomic(BOOLTYPE), a, b)
    decreases Max(Depth(a), Depth(b)), 0
  {
    hide GetBinaryOp;
    var es := NewCompareStruct(op, a, b).elemOps;
    forall i | 0 <= i < |es| ensures Performs(es[i], op, Atomic(BOOLTYPE), a.elems[i].ty, b.elems[i].ty) {
      BuiltPerforms(op, Atomic(BOOLTYPE), a.elems[i].ty, b.elems[i].ty);
    }
  }

  lemma {:induction false} StructPerforms(op: OpType, res: BaseType, a: BaseType, b: BaseType)
    requires res.Struct? && Compatible(res, a) && Compatible(res, b) && !op.Comparison()
    ensures Performs(NewBinaryStruct(op, res), op, res, a, b)
    decreases Depth(res), 0
  {
    hide GetBinaryOp;
    forall i | 0 <= i < |res.elems|
      ensures op.MinMax() ==> Performs(NewBinaryStruct(op, res).lessOps[i], Less, Atomic(BOOLTYPE), a.elems[i].ty, b.elems[i].ty)
      ensures op.MinMax() ==> Performs(NewBinaryStruct(op, res).equalOps[i], Equal, Atomic(BOOLTYPE), a.elems[i].ty, b.elems[i].ty)
      ensures !op.MinMax() ==> Performs(NewBinaryStruct(op, res).elemOps[i], op, res.elems[i].ty, a.elems[i].ty, b.elems[i].ty)
    {
      var t := res.elems[i].ty;
      BuiltPerformsOn(Less, Atomic(BOOLTYPE), t, a.elems[i].ty, b.elems[i].ty);
      BuiltPerformsOn(Equal, Atomic(BOOLTYPE), t, a.elems[i].ty, b.elems[i].ty);
      BuiltPerformsOn(op, t, t, a.elems[i].ty, b.elems[i].ty);
    }
  }

  /** An object built for a type performs on compatible ones. */
  lemma {:induction false} BuiltPerformsOn(op: OpType, res: BaseType, t: BaseType, a: BaseType, b: BaseType)
    requires Compatible(t, a) && Compatible(t, b)
    ensures Performs(GetBinaryOp(op, res, t, t), op, res, a, b)
    decreases Depth(t), 2
  {
    hide GetBinaryOp, Performs, Compatible;
    BuiltPerforms(op, res, t, t);
    CompatibleReflexive(res);
    PerformsCompatible(GetBinaryOp(op, res, t, t), op, res, t, t, res, a, b);
  }

  lemma {:induction false} ScalarPerforms(op: OpType, res: BaseType, a: BaseType, b: BaseType)
    requires res.Struct? && a.Struct? != b.Struct? && !op.Comparison()
    ensures a.Struct? ==> Performs(NewStructConst(op, res, a, b), op, res, a, b)
    ensures b.Struct? ==> Performs(NewConstStruct(op, res, a, b), op, res, a, b)
    decreases Max(Depth(a), Depth(b)), 0
  {
    hide GetBinaryOp;
    if a.Struct? {
      forall i | 0 <= i < |a.elems| ensures Performs(NewStructConst(op, res, a, b).elemOps[i], op, ElemType(res, i), a.elems[i].ty, b) {
        BuiltPerforms(op, ElemType(res, i), a.elems[i].ty, b);
      }
    } else {
      forall i | 0 <= i < |b.elems| ensures Performs(NewConstStruct(op, res, a, b).elemOps[i], op, ElemType(res, i), a, b.elems[i].ty) {
        BuiltPerforms(op, ElemType(res, i), a, b.elems[i].ty);
      }
    }
  }

  // ---------- which operations apply, and to what type they lead ----------

  /**
   The operands an operation is defined on: comparing needs numbers, arithmetic anything atomic, logic integers, and
   integer division also a LONG, ULONG or CHAR among them; structs are combined by elements and only compared for equality.
   */
  predicate Meaningful(op: OpType, a: BaseType, b: BaseType)
    decreases a, b
  {
    if a.Struct? && b.Struct? then
      && Compatible(a, b)
      && if op.Comparison() then op.Equality() else forall i :: 0 <= i < |a.elems| ==> Meaningful(op, a.elems[i].ty, a.elems[i].ty)
    else if a.Struct? then !op.Comparison() && forall i :: 0 <= i < |a.elems| ==> Meaningful(op, a.elems[i].ty, b)
    else if b.Struct? then !op.Comparison() && forall i :: 0 <= i < |b.elems| ==> Meaningful(op, a, b.elems[i].ty)
    else
      match op
      case Equal => a.Numerical() && b.Numerical()
      case NotEqual => a.Numerical() && b.Numerical()
      case Less => a.Numerical() && b.Numerical()
      case LessEqual => a.Numerical() && b.Numerical()
      case Greater => a.Numerical() && b.Numerical()
      case GreaterEqual => a.Numerical() && b.Numerical()
      case Is => false
      case And => a.Integral() && b.Integral()
      case Or => a.Integral() && b.Integral()
      case Xor => a.Integral() && b.Integral()
      case IntDiv => a.Integral() && b.Integral() && (a.code in {LONG, ULONG, CHAR} || b.code in {LONG, ULONG, CHAR})
      case Mod => a.Integral() && b.Integral() && (a.code in {LONG, ULONG, CHAR} || b.code in {LONG, ULONG, CHAR})
      case _ => true
  }

  lemma AtomicMeaningful(op: OpType, a: BaseType, b: BaseType)
    requires !a.Struct? && !b.Struct?
    ensures PrimitiveOp(op, TrialType(op, a, b), a, b) != Null <==> Meaningful(op, a, b)
  {
  }

  /** An operation is applicable exactly to the operands it is defined on, at any nesting. */
  lemma {:induction false} ApplicableIffMeaningful(op: OpType, a: BaseType, b: BaseType)
    ensures IsApplicable(op, a, b) <==> Meaningful(op, a, b)
    decreases a, b
  {
    hide PrimitiveOp, GetBinaryOp, IsApplicable, TrialType, GetResultType, Compatible;
    if a.Struct? && b.Struct? {
      StructUnfold(op, a, b);
      forall i | 0 <= i < |a.elems| ensures IsApplicable(op, a.elems[i].ty, a.elems[i].ty) <==> Meaningful(op, a.elems[i].ty, a.elems[i].ty) {
        ApplicableIffMeaningful(op, a.elems[i].ty, a.elems[i].ty);
      }
    } else if a.Struct? {
      ScalarUnfold(op, a, b);
      forall i | 0 <= i < |a.elems| ensures IsApplicable(op, a.elems[i].ty, b) <==> Meaningful(op, a.elems[i].ty, b) {
        ApplicableIffMeaningful(op, a.elems[i].ty, b);
      }
    } else if b.Struct? {
      ScalarUnfold(op, b, a);
      forall i | 0 <= i < |b.elems| ensures IsApplicable(op, b.elems[i].ty, a) <==> Meaningful(op, a, b.elems[i].ty) {
        ApplicableSwap(op, b.elems[i].ty, a);
        ApplicableIffMeaningful(op, a, b.elems[i].ty);
      }
    } else {
      AtomicUnfold(op, a, b);
      AtomicMeaningful(op, a, b);
    }
  }

  /** The order of the atomic types by strength, for the unsigned and for the signed ones. */
  function Strength(t: BaseType): int
    requires !t.Struct?
  {
    if t.code == BOOLTYPE || t.code == OCTET then 0
    else if t.code == CHAR || t.code == SHORT then 1
    else if t.code == USHORT || t.code == LONG then 2
    else if t.code == ULONG || t.code == FLOAT then 3
    else if t.code == DOUBLE then 4
    else if t.code == COMPLEXTYPE1 then 5
    else 6
  }

  /**
   The stronger of two types of one signedness; otherwise a signed type, strong enough for the signed operand and, of
   the unsigned ones, for none but USHORT.
   */
  predicate IsStrongest(a: BaseType, b: BaseType, r: BaseType)
    requires !a.Struct? && !b.Struct?
  {
    && !r.Struct? && (r.Signed() <==> a.Signed() || b.Signed())
    && (a.Signed() == b.Signed() ==> Strength(r) == Max(Strength(a), Strength(b)))
    && (a.Signed() != b.Signed() ==>
          var s, u := if a.Signed() then a else b, if a.Signed() then b else a;
          Strength(r) == Max(Strength(s), if u.code == USHORT then Strength(Atomic(SHORT)) else 0))
  }

  lemma StrongestTypeLaws(a: BaseType, b: BaseType)
    requires !a.Struct? && !b.Struct?
    ensures IsStrongest(a, b, StrongestType(a, b)) && StrongestType(a, b) == StrongestType(b, a)
    ensures StrongestType(a, a) == a
    ensures forall r :: IsStrongest(a, b, r) ==> r == StrongestType(a, b)
  {
  }

  /** The type of the result: by elements for a numerical scalar, the struct itself with another struct or a complex scalar. */
  predicate Infers(op: OpType, a: BaseType, b: BaseType, r: BaseType)
    decreases r
  {
    if a.Struct? && b.Struct? then r == if op.Equality() then Atomic(BOOLTYPE) else a
    else if a.Struct? then
      if b.Complex() then r == a
      else
        && r.Struct? && |r.elems| == |a.elems|
        && forall i :: 0 <= i < |a.elems| ==> r.elems[i].name == a.elems[i].name && Infers(op, a.elems[i].ty, b, r.elems[i].ty)
    else if b.Struct? then
      if a.Complex() then r == b
      else
        && r.Struct? && |r.elems| == |b.elems|
        && forall i :: 0 <= i < |b.elems| ==> r.elems[i].name == b.elems[i].name && Infers(op, a, b.elems[i].ty, r.elems[i].ty)
    else if op.Comparison() then r == Atomic(BOOLTYPE)
    else if op.Div? && a.Integral() && b.Integral() then r == Atomic(DOUBLE)
    else IsStrongest(a, b, r)
  }

  lemma {:induction false} ResultTypeInferred(op: OpType, a: BaseType, b: BaseType)
    requires GetResultType(op, a, b).Some?
    ensures Infers(op, a, b, GetResultType(op, a, b).value)
    decreases a, b
  {
    hide PrimitiveOp, IsApplicable, GetBinaryOp, TrialType, StrongestType, IsStrongest;
    var r := GetResultType(op, a, b).value;
    ResultTypeIffApplicable(op, a, b);
    if a.Struct? && b.Struct? {
    } else if a.Struct? {
      ScalarUnfold(op, a, b);
      if b.Numerical() {
        forall i | 0 <= i < |a.elems| ensures r.elems[i].name == a.elems[i].name && Infers(op, a.elems[i].ty, b, r.elems[i].ty) {
          ResultStructAt(op, a.elems, b, true, i);
          ResultTypeInferred(op, a.elems[i].ty, b);
        }
      }
    } else if b.Struct? {
      ScalarUnfold(op, b, a);
      if a.Numerical() {
        forall i | 0 <= i < |b.elems| ensures r.elems[i].name == b.elems[i].name && Infers(op, a, b.elems[i].ty, r.elems[i].ty) {
          ResultStructAt(op, b.elems, a, false, i);
          ResultTypeInferred(op, a, b.elems[i].ty);
        }
      }
    } else {
      StrongestTypeLaws(a, b);
    }
  }

  /**
   A result type is inferred exactly for operands the operation is defined on. An object is then built that performs
   the operation, with no null part at any depth exactly for the operands in `Buildable`.
   */
  lemma DispatchExact(op: OpType, a: BaseType, b: BaseType)
    ensures GetResultType(op, a, b).Some? <==> Meaningful(op, a, b)
    ensures GetResultType(op, a, b).Some? ==>
              var r := GetResultType(op, a, b).value;
              var o := GetBinaryOp(op, r, a, b);
              Infers(op, a, b, r) && o != Null && Performs(o, op, r, a, b) && (Complete(o) <==> Buildable(op, a, b))
  {
    hide PrimitiveOp, IsApplicable, GetBinaryOp, GetResultType, Meaningful, Infers, Performs, Complete, Buildable, Depth;
    ResultTypeIffApplicable(op, a, b);
    ApplicableIffMeaningful(op, a, b);
    if GetResultType(op, a, b).Some? {
      ResultTypeInferred(op, a, b);
      BuiltPerforms(op, GetResultType(op, a, b).value, a, b);
      BuiltComplete(op, a, b);
    }
  }

  lemma BuiltComplete(op: OpType, a: BaseType, b: BaseType)
    requires GetResultType(op, a, b).Some?
    ensures var o := GetBinaryOp(op, GetResultType(op, a, b).value, a, b);
            o != Null && (Complete(o) <==> Buildable(op, a, b))
  {
    hide PrimitiveOp, IsApplicable, GetBinaryOp, TrialType, StrongestType;
    ResultTypeIffApplicable(op, a, b);
    if a.Struct? && b.Struct? {
      StructUnfold(op, a, b);
      if op.Comparison() {
        ComparisonComplete(op, a, b);
      } else if op.MinMax() {
        MinMaxComplete(op, a);
      } else {
        StructUnfold(op, a, a);
        CompatibleReflexive(a);
        SameTypeComplete(op, a);
      }
    } else if a.Struct? || b.Struct? {
      var t, c := if a.Struct? then a else b, if a.Struct? then b else a;
      ScalarUnfold(op, t, c);
      if c.Complex() {
        ComplexScalarComplete(op, t, c);
      } else if a.Struct? {
        ScalarRightComplete(op, a, b);
      } else {
        ScalarLeftComplete(op, a, b);
      }
    } else {
      AtomicSound(op, a, b);
    }
  }

  /** Adding a complex number to a struct of chars: a result type, but no complete object. */
  lemma ComplexScalarExample()
    ensures var s := Struct([Elem("v", Atomic(CHAR))]);
            GetResultType(Plus, s, Atomic(COMPLEXTYPE2)) == Some(s) && !Buildable(Plus, s, Atomic(COMPLEXTYPE2))
  {
    hide PrimitiveOp, GetBinaryOp, IsApplicable, TrialType, StrongestType, Depth, DepthAll, ResultStruct;
    var s, c := Struct([Elem("v", Atomic(CHAR))]), Atomic(COMPLEXTYPE2);
    assert s.elems[0].ty == Atomic(CHAR);
    AtomicExample();
    ScalarUnfold(Plus, s, c);
    assert !LeavesComplex(s.elems[0].ty);
  }

  /** The maximum of structs with a complex field: a result type, but no complete object. */
  lemma MaxOfComplexFieldExample()
    ensures var z := Struct([Elem("z", Atomic(COMPLEXTYPE1))]);
            GetResultType(MaxBinary, z, z) == Some(z) && !Buildable(MaxBinary, z, z)
  {
    hide PrimitiveOp, GetBinaryOp, IsApplicable, TrialType, StrongestType, Depth, DepthAll, ResultStruct;
    var z := Struct([Elem("z", Atomic(COMPLEXTYPE1))]);
    assert z.elems[0].ty == Atomic(COMPLEXTYPE1);
    AtomicExample();
    StructUnfold(MaxBinary, z, z);
    CompatibleReflexive(z);
    assert !z.elems[0].ty.Numerical();
  }

  /** Equality of structs with a complex field: a result type, but no complete object. */
  lemma EqualOfComplexFieldExample()
    ensures var z := Struct([Elem("z", Atomic(COMPLEXTYPE1))]);
            && GetResultType(Equal, z, z) == Some(Atomic(BOOLTYPE)) && !Buildable(Equal, z, z)
            && !Complete(GetBinaryOp(Equal, Atomic(BOOLTYPE), z, z))
  {
    hide PrimitiveOp, GetBinaryOp, IsApplicable;
    var z := Struct([Elem("z", Atomic(COMPLEXTYPE1))]);
    CompatibleReflexive(z);
    StructUnfold(Equal, z, z);
    ComparisonComplete(Equal, z, z);
    assert z.elems[0].ty == Atomic(COMPLEXTYPE1);
    assert !LeavesNumerical(z);
  }

  lemma AtomicExample()
    ensures IsApplicable(Plus, Atomic(CHAR), Atomic(COMPLEXTYPE2))
    ensures IsApplicable(MaxBinary, Atomic(COMPLEXTYPE1), Atomic(COMPLEXTYPE1))
  {
    hide IsApplicable, GetBinaryOp, GetResultType, AtomicResultType, Depth, Compatible;
    AtomicUnfold(Plus, Atomic(CHAR), Atomic(COMPLEXTYPE2));
    AtomicUnfold(MaxBinary, Atomic(COMPLEXTYPE1), Atomic(COMPLEXTYPE1));
  }
}

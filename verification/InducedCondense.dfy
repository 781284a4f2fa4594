/**
 The general condenser over MDD-valued expressions: an odometer visits the points of a box, and at each
 point that satisfies the condition the value of the cell expression is folded into an accumulated MDD.

 MDD values are reference counted; `made` records every MDD the run creates.
 */
module InducedCondense {
  import opened Prelude
  import opened Boxes

  // ---------- the odometer ----------

  /** The row-major number of a point whose coordinates may have run out of the box. */
  function RawOffset(b: Box, p: Point): int
    requires Valid(b) && |p| == |b|
  {
    if b == [] then 0 else (p[0] - b[0].lo) * CellCount(b[1..]) + RawOffset(b[1..], p[1..])
  }

  lemma {:induction false} RawOffsetCovered(b: Box, p: Point)
    requires Valid(b) && Covers(b, p)
    ensures RawOffset(b, p) == Offset(b, p)
  {
    if b != [] { RawOffsetCovered(b[1..], p[1..]); }
  }

  /** Moving coordinate i by d moves the number by d lines of that axis. */
  lemma {:induction false} RawOffsetMove(b: Box, p: Point, i: nat, d: int)
    requires Valid(b) && |p| == |b| && i < |b|
    ensures RawOffset(b, p[i := p[i] + d]) == RawOffset(b, p) + d * CellCount(b[i + 1..])
  {
    var q := p[i := p[i] + d];
    if i == 0 {
      assert q[1..] == p[1..];
      var c := CellCount(b[1..]);
      assert (p[0] + d - b[0].lo) * c == (p[0] - b[0].lo) * c + d * c;
    } else {
      assert q[1..] == p[1..][i - 1 := p[1..][i - 1] + d];
      assert b[1..][i..] == b[i + 1..];
      RawOffsetMove(b[1..], p[1..], i - 1, d);
    }
  }

  /** Moving a full extent along axis i is one step along axis i - 1, or the whole box. */
  lemma CarryWeight(b: Box, p: Point, i: nat)
    requires Valid(b) && |p| == |b| && i < |b| && p[i] == b[i].hi + 1
    ensures RawOffset(b, p[i := b[i].lo]) == RawOffset(b, p) - CellCount(b[i..])
  {
    hide RawOffset, CellCount;
    RawOffsetMove(b, p, i, b[i].lo - p[i]);
    assert p[i := p[i] + (b[i].lo - p[i])] == p[i := b[i].lo];
    CountSuffix(b, i);
    var c := CellCount(b[i + 1..]);
    var e := b[i].Extent();
    assert b[i].lo - p[i] == -e;
    assert (-e) * c == -(e * c);
  }

  lemma {:induction false} LowCorner(b: Box, p: Point)
    requires Valid(b) && |p| == |b| && forall j :: 0 <= j < |b| ==> p[j] == b[j].lo
    ensures Covers(b, p) && Offset(b, p) == 0
  {
    if b != [] {
      LowCorner(b[1..], p[1..]);
      assert p[0] == b[0].lo;
    }
  }

  lemma LastWeight(area: Box)
    requires Valid(area) && area != []
    ensures CellCount(area[|area|..]) == 1
  {
    assert area[|area|..] == [];
  }

  /**
   The increment of the odometer, from point number k: the next point in row-major order, or `done` after
   the last one.
   */
  method Advance(area: Box, p: Point, ghost k: nat) returns (next: Point, done: bool)
    requires Valid(area) && area != [] && k < CellCount(area) && p == PointAt(area, k)
    ensures done <==> k + 1 == CellCount(area)
    ensures !done ==> next == PointAt(area, k + 1)
  {
    hide RawOffset, Offset, CellCount, PointAt;
    PointAtCovered(area, k);
    OffsetOfPointAt(area, k);
    RawOffsetCovered(area, p);
    LastWeight(area);
    var i := |area| - 1;
    next := p[i := p[i] + 1];
    RawOffsetMove(area, p, i, 1);
    done := false;
    while next[i] > area[i].hi
      invariant 0 <= i < |area| && |next| == |area|
      invariant forall j :: 0 <= j < |area| && j != i ==> area[j].Has(next[j])
      invariant area[i].lo <= next[i] <= area[i].hi + 1
      invariant forall j :: i < j < |area| ==> next[j] == area[j].lo
      invariant RawOffset(area, next) == k + 1
      invariant !done
      decreases i
    {
      CarryWeight(area, next, i);
      ghost var carried := next[i := area[i].lo];
      if i == 0 {
        assert area[0..] == area;
        OffsetOrLow(area, carried, k);
      }
      next := next[i := area[i].lo];
      i := i - 1;
      if i < 0 {
        done := true;
        break;
      }
      RawOffsetMove(area, next, i, 1);
      next := next[i := next[i] + 1];
    }
    if !done {
      assert Covers(area, next);
      RawOffsetCovered(area, next);
      OffsetBound(area, next);
      PointAtOffset(area, next);
    }
  }

  /** Every axis has wrapped: the number is back at 0, so k was the last one. */
  lemma OffsetOrLow(area: Box, p: Point, k: nat)
    requires Valid(area) && |p| == |area| && forall j :: 0 <= j < |area| ==> p[j] == area[j].lo
    requires RawOffset(area, p) == k + 1 - CellCount(area)
    ensures k + 1 == CellCount(area)
  {
    LowCorner(area, p);
    RawOffsetCovered(area, p);
  }

  // ---------- the fold ----------

  /** The left fold of `op` over the cell values at the first n points that satisfy the condition. */
  function Folded<V>(area: Box, cell: Point -> V, cond: Option<Point -> bool>, op: (V, V) -> V, n: nat): Option<V>
    requires Valid(area)
  {
    if n == 0 then None else
      var before, p := Folded(area, cell, cond, op, n - 1), PointAt(area, n - 1);
      if cond.Some? && !cond.value(p) then before
      else if before.None? then Some(cell(p))
      else Some(op(before.value, cell(p)))
  }

  class QtMdd<V> {
    const value: V
    var refs: nat

    constructor (value: V)
      ensures this.value == value && refs == 1
    {
      this.value, refs := value, 1;
    }

    method DeleteRef()
      requires refs >= 1
      modifies this
      ensures refs == old(refs) - 1
    {
      refs := refs - 1;
    }
  }

  class QLInducedCondenseOp<V> {
    const cellExpression: Point -> V
    const condExpression: Option<Point -> bool>
    const myOp: (V, V) -> V
    var accumulatedValue: QtMdd?<V>
    ghost var made: set<QtMdd<V>>

    /** The accumulated MDD holds one reference; every other MDD ever made has been released. */
    ghost predicate Valid()
      reads this, made
    {
      && (accumulatedValue != null ==> accumulatedValue in made)
      && forall m :: m in made ==> m.refs == if m == accumulatedValue then 1 else 0
    }

    ghost function Value(): Option<V>
      reads this
    {
      if accumulatedValue == null then None else Some(accumulatedValue.value)
    }

    constructor (cellExpression: Point -> V, condExpression: Option<Point -> bool>, myOp: (V, V) -> V)
      ensures this.cellExpression == cellExpression && this.condExpression == condExpression && this.myOp == myOp
      ensures Valid() && made == {} && accumulatedValue == null
    {
      this.cellExpression, this.condExpression, this.myOp := cellExpression, condExpression, myOp;
      accumulatedValue, made := null, {};
    }

    /** `operator()` at one point. */
    method Apply(p: Point)
      requires Valid()
      modifies this, made
      ensures Valid() && old(made) <= made && fresh(made - old(made))
      ensures Value() == if condExpression.Some? && !condExpression.value(p) then old(Value())
                         else if old(Value()).None? then Some(cellExpression(p))
                         else Some(myOp(old(Value()).value, cellExpression(p)))
    {
      if condExpression.None? || condExpression.value(p) {
        var resultData := new QtMdd(cellExpression(p));
        if accumulatedValue == null {
          accumulatedValue := resultData;
          made := made + {resultData};
        } else {
          var result := new QtMdd(myOp(accumulatedValue.value, resultData.value));
          accumulatedValue.DeleteRef();
          resultData.DeleteRef();
          accumulatedValue := result;
          made := made + {resultData, result};
        }
      }
    }

    /** `execGenCondenseInducedOp`: the fold over the whole box in row-major order. */
    method Execute(area: Box) returns (r: QtMdd?<V>)
      requires Valid() && accumulatedValue == null
      requires Boxes.Valid(area) && area != []
      modifies this, made
      ensures Valid() && r == accumulatedValue && fresh(made - old(made))
      ensures Value() == Folded(area, cellExpression, condExpression, myOp, CellCount(area))
    {
      var pOp: Point := [];
      for j := 0 to |area|
        invariant |pOp| == j && forall i :: 0 <= i < j ==> pOp[i] == area[i].lo
      {
        pOp := pOp + [area[j].lo];
      }
      LowCorner(area, pOp);
      PointAtOffset(area, pOp);
      var done := false;
      ghost var k: nat := 0;
      while !done
        invariant Valid() && fresh(made - old(made))
        invariant k <= CellCount(area) && (done <==> k == CellCount(area))
        invariant !done ==> pOp == PointAt(area, k)
        invariant Value() == Folded(area, cellExpression, condExpression, myOp, k)
        decreases CellCount(area) - k
      {
        Apply(pOp);
        pOp, done := Advance(area, pOp, k);
        k := k + 1;
      }
      return accumulatedValue;
    }
  }

  function Single(p: Point): seq<Point> { [p] }
  function Concat(a: seq<Point>, b: seq<Point>): seq<Point> { a + b }

  /** The points up to number n that the condition accepts, in row-major order. */
  function Accepted(area: Box, cond: Option<Point -> bool>, n: nat): seq<Point>
    requires Valid(area)
  {
    if n == 0 then [] else Accepted(area, cond, n - 1) + if Skipped(area, cond, n - 1) then [] else [PointAt(area, n - 1)]
  }

  /** Putting the points together in a list shows what is folded: the accepted ones, in order, each once. */
  lemma {:induction false} FoldedPoints(area: Box, cond: Option<Point -> bool>, n: nat)
    requires Valid(area)
    ensures var list := Accepted(area, cond, n);
            Folded(area, Single, cond, Concat, n) == if list == [] then None else Some(list)
  {
    if n > 0 {
      FoldedPoints(area, cond, n - 1);
      var before, p := Accepted(area, cond, n - 1), PointAt(area, n - 1);
      assert [] + [p] == [p] && before + [] == before && Single(p) == [p];
      assert Accepted(area, cond, n) == before + if Skipped(area, cond, n - 1) then [] else [p];
    }
  }

  /** The condition rejects point number k. */
  predicate Skipped(area: Box, cond: Option<Point -> bool>, k: nat)
    requires Valid(area)
  {
    cond.Some? && !cond.value(PointAt(area, k))
  }

  /** There is no result exactly when no point satisfies the condition. */
  lemma {:induction false} NoResultIffNoPoint<V>(area: Box, cell: Point -> V, cond: Option<Point -> bool>, op: (V, V) -> V, n: nat)
    requires Valid(area)
    ensures Folded(area, cell, cond, op, n).None? <==> forall k: nat :: k < n ==> Skipped(area, cond, k)
  {
    hide PointAt;
    if n > 0 {
      NoResultIffNoPoint(area, cell, cond, op, n - 1);
      assert Folded(area, cell, cond, op, n).None? <==>
             Folded(area, cell, cond, op, n - 1).None? && Skipped(area, cond, n - 1);
    }
  }

  /** The visited points are the points of the box, each exactly once. */
  lemma EveryPointOnce(area: Box, p: Point)
    requires Valid(area)
    ensures Covers(area, p) <==> exists k :: 0 <= k < CellCount(area) && PointAt(area, k) == p
    ensures forall k: nat, l: nat :: k < l < CellCount(area) ==> PointAt(area, k) != PointAt(area, l)
  {
    if Covers(area, p) {
      PointAtOffset(area, p);
      OffsetBound(area, p);
    }
    forall k: nat | k < CellCount(area)
      ensures Covers(area, PointAt(area, k)) && Offset(area, PointAt(area, k)) == k
    {
      OffsetOfPointAt(area, k);
    }
  }
}

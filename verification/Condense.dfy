/**
 The condensers MAX, MIN and SUM over 32-bit cells, with null values.

 A condenser is a state machine fed one cell at a time; `Step` is its transition and the class
 `CondenseOp` carries it out on its fields. `RunMeaning` says what the machine has computed after any
 sequence of cells.
 */
module Condense {
  import opened Prelude
  import opened Boxes

  datatype Fn = MaxOp | MinOp | SumOp

  const TWO32 := 0x1_0000_0000

  function Lowest(signed: bool): int { if signed then -0x8000_0000 else 0 }
  function Highest(signed: bool): int { Lowest(signed) + TWO32 - 1 }

  predicate InRange(signed: bool, v: int) { Lowest(signed) <= v <= Highest(signed) }

  /** Reduction of a sum to 32 bits. */
  function Wrap(signed: bool, v: int): (w: int)
    ensures InRange(signed, w) && (v - w) % TWO32 == 0
  {
    (v - Lowest(signed)) % TWO32 + Lowest(signed)
  }

  /** The value the constructors put into the accumulator. */
  function Neutral(fn: Fn, signed: bool): int {
    match fn
    case MaxOp => Lowest(signed)
    case MinOp => Highest(signed)
    case SumOp => 0
  }

  /** The accumulator after one non-null cell. */
  function Combine(fn: Fn, signed: bool, accu: int, cell: int): int {
    match fn
    case MaxOp => if cell > accu then cell else accu
    case MinOp => if cell < accu then cell else accu
    case SumOp => Wrap(signed, accu + cell)
  }

  /** `within_bounds`: the value lies in one of the null intervals; no intervals, no nulls. */
  predicate IsNullValue(nulls: Option<Box>, v: int) {
    nulls.Some? && exists i :: 0 <= i < |nulls.value| && nulls.value[i].Has(v)
  }

  /** A value is null as soon as one of the intervals has it, its bounds included. */
  lemma NullExample()
    ensures var nulls := Some([Interval(0, 9), Interval(20, 29)]);
            && IsNullValue(nulls, 9) && IsNullValue(nulls, 20) && IsNullValue(nulls, 29)
            && !IsNullValue(nulls, 10) && !IsNullValue(nulls, 19) && !IsNullValue(nulls, 30) && !IsNullValue(None, 0)
  {
    var nulls := Some([Interval(0, 9), Interval(20, 29)]);
    assert nulls.value[0].Has(9) && nulls.value[1].Has(20) && nulls.value[1].Has(29);
  }

  datatype State = State(accu: int, initialized: bool, nullAccu: bool, nullCount: nat)

  function Start(fn: Fn, signed: bool): State { State(Neutral(fn, signed), false, false, 0) }

  function Step(fn: Fn, signed: bool, nulls: Option<Box>, s: State, cell: int): State {
    var null' := IsNullValue(nulls, cell);
    var first := if !s.initialized && null' then s.(accu := cell, nullAccu := true) else s;
    if null' then State(first.accu, true, first.nullAccu, first.nullCount + 1)
    else if first.nullAccu then State(cell, true, false, first.nullCount)
    else State(Combine(fn, signed, first.accu, cell), true, false, first.nullCount)
  }

  function Run(fn: Fn, signed: bool, nulls: Option<Box>, cells: seq<int>): State {
    if cells == [] then Start(fn, signed)
    else Step(fn, signed, nulls, Run(fn, signed, nulls, cells[..|cells| - 1]), cells[|cells| - 1])
  }

  class CondenseOp {
    const fn: Fn
    const signed: bool
    var nullValues: Option<Box>
    var accu: int
    var initialized: bool
    var nullAccu: bool
    var nullValuesCount: nat

    function Abs(): State
      reads this
    {
      State(accu, initialized, nullAccu, nullValuesCount)
    }

    constructor (fn: Fn, signed: bool)
      ensures this.fn == fn && this.signed == signed && nullValues == None && Abs() == Start(fn, signed)
    {
      this.fn, this.signed := fn, signed;
      nullValues, initialized, nullAccu, nullValuesCount := None, false, false, 0;
      accu := Neutral(fn, signed);
    }

    /** `isNullOnly`: a loop over the null intervals. */
    method IsNullOnly(v: int) returns (r: bool)
      ensures r == IsNullValue(nullValues, v)
    {
      if nullValues.None? { return false; }
      for i := 0 to |nullValues.value|
        invariant forall j :: 0 <= j < i ==> !nullValues.value[j].Has(v)
      {
        if v >= nullValues.value[i].lo && v <= nullValues.value[i].hi { return true; }
      }
      return false;
    }

    /** `isNull`: the same, and counts. */
    method IsNull(v: int) returns (r: bool)
      modifies this`nullValuesCount
      ensures r == IsNullValue(nullValues, v)
      ensures nullValuesCount == old(nullValuesCount) + if r then 1 else 0
    {
      r := IsNullOnly(v);
      if r { nullValuesCount := nullValuesCount + 1; }
    }

    /** `operator()` on the internal accumulator, for one cell. */
    method Accumulate(cell: int)
      modifies this`accu, this`initialized, this`nullAccu, this`nullValuesCount
      ensures Abs() == Step(fn, signed, nullValues, old(Abs()), cell)
    {
      if !initialized {
        var first := IsNullOnly(cell);
        if first { accu, nullAccu := cell, true; }
        initialized := true;
      }
      var isNull := IsNull(cell);
      if !isNull {
        match fn {
          case MaxOp => if nullAccu || cell > accu { accu, nullAccu := cell, false; }
          case MinOp => if nullAccu || cell < accu { accu, nullAccu := cell, false; }
          case SumOp =>
            if nullAccu { accu, nullAccu := cell, false; } else { accu := Wrap(signed, accu + cell); }
        }
      }
    }

    /** Condensing the cells of one tile after another. */
    method AccumulateAll(cells: seq<int>)
      requires Abs() == Start(fn, signed)
      modifies this`accu, this`initialized, this`nullAccu, this`nullValuesCount
      ensures Abs() == Run(fn, signed, nullValues, cells)
    {
      for i := 0 to |cells|
        invariant Abs() == Run(fn, signed, nullValues, cells[..i])
      {
        Accumulate(cells[i]);
        assert cells[..i + 1][..i] == cells[..i];
      }
      assert cells[..|cells|] == cells;
    }
  }

  // ---------- what a run has computed ----------

  /** The cells that are not null, in order. */
  function Live(nulls: Option<Box>, cells: seq<int>): seq<int> {
    if cells == [] then []
    else
      var init := Live(nulls, cells[..|cells| - 1]);
      if IsNullValue(nulls, cells[|cells| - 1]) then init else init + [cells[|cells| - 1]]
  }

  function Sum(s: seq<int>): int {
    if s == [] then 0 else Sum(s[..|s| - 1]) + s[|s| - 1]
  }

  /** The value that condensing the non-empty sequence `s` stands for. */
  ghost predicate Condensed(fn: Fn, signed: bool, s: seq<int>, v: int) {
    match fn
    case MaxOp => v in s && forall i :: 0 <= i < |s| ==> s[i] <= v
    case MinOp => v in s && forall i :: 0 <= i < |s| ==> v <= s[i]
    case SumOp => InRange(signed, v) && (Sum(s) - v) % TWO32 == 0
  }

  lemma MultiplesAdd(x: int, y: int)
    requires x % TWO32 == 0 && y % TWO32 == 0
    ensures (x + y) % TWO32 == 0
  {
  }

  lemma CondensedStep(fn: Fn, signed: bool, s: seq<int>, accu: int, cell: int)
    requires s != [] && Condensed(fn, signed, s, accu)
    ensures Condensed(fn, signed, s + [cell], Combine(fn, signed, accu, cell))
  {
    var t := s + [cell];
    assert t[..|t| - 1] == s && t[|s|] == cell;
    match fn {
      case MaxOp => assert forall i :: 0 <= i < |s| ==> t[i] == s[i];
      case MinOp => assert forall i :: 0 <= i < |s| ==> t[i] == s[i];
      case SumOp =>
        hide Wrap, Sum;
        assert Sum(t) == Sum(s) + cell by { SumLast(s, cell); }
        MultiplesAdd(Sum(s) - accu, accu + cell - Wrap(signed, accu + cell));
    }
  }

  lemma SumLast(s: seq<int>, cell: int)
    ensures Sum(s + [cell]) == Sum(s) + cell
  {
    assert (s + [cell])[..|s|] == s;
  }

  lemma CondensedOne(fn: Fn, signed: bool, cell: int)
    requires InRange(signed, cell)
    ensures Condensed(fn, signed, [cell], cell)
    ensures Combine(fn, signed, Neutral(fn, signed), cell) == cell
  {
    assert Sum([cell]) == cell by { assert [cell][..0] == []; }
  }

  /**
   After any non-empty sequence of cells: the accumulator condenses the non-null cells, or is the first cell
   if all are null; `nullAccu` says which; the null count is exact.
   */
  lemma {:induction false} RunMeaning(fn: Fn, signed: bool, nulls: Option<Box>, cells: seq<int>)
    requires cells != [] && forall i :: 0 <= i < |cells| ==> InRange(signed, cells[i])
    ensures var r, live := Run(fn, signed, nulls, cells), Live(nulls, cells);
            && r.initialized && (r.nullAccu <==> live == [])
            && r.nullCount == |cells| - |live|
            && (if live == [] then r.accu == cells[0] else Condensed(fn, signed, live, r.accu))
  {
    hide Condensed, Combine, IsNullValue, InRange, Neutral;
    var init, last := cells[..|cells| - 1], cells[|cells| - 1];
    if init == [] {
      CondensedOne(fn, signed, last);
      assert cells == [last] && [] + [last] == [last];
    } else {
      RunMeaning(fn, signed, nulls, init);
      var live := Live(nulls, init);
      if !IsNullValue(nulls, last) {
        if live == [] { CondensedOne(fn, signed, last); assert live + [last] == [last]; }
        else { CondensedStep(fn, signed, live, Run(fn, signed, nulls, init).accu, last); }
      }
    }
  }

  lemma {:induction false} LiveMultiset(nulls: Option<Box>, cells: seq<int>, v: int)
    ensures multiset(Live(nulls, cells))[v] == if IsNullValue(nulls, v) then 0 else multiset(cells)[v]
  {
    if cells != [] {
      var init, last := cells[..|cells| - 1], cells[|cells| - 1];
      LiveMultiset(nulls, init, v);
      assert cells == init + [last];
    }
  }

  lemma {:induction false} SumRemove(s: seq<int>, i: nat)
    requires i < |s|
    ensures Sum(s) == Sum(s[..i] + s[i + 1..]) + s[i]
  {
    var t := s[..i] + s[i + 1..];
    if i == |s| - 1 {
      assert t == s[..i];
    } else {
      var init := s[..|s| - 1];
      SumRemove(init, i);
      assert t[..|t| - 1] == init[..i] + init[i + 1..] && t[|t| - 1] == s[|s| - 1];
    }
  }

  lemma {:induction false} SumPermutation(s: seq<int>, t: seq<int>)
    requires multiset(s) == multiset(t)
    ensures Sum(s) == Sum(t)
    decreases |s|
  {
    if s == [] {
      assert |multiset(t)| == 0;
    } else {
      var last := s[|s| - 1];
      assert last in multiset(t);
      var i :| 0 <= i < |t| && t[i] == last;
      SumRemove(t, i);
      var rest := t[..i] + t[i + 1..];
      assert t == t[..i] + [last] + t[i + 1..];
      assert s == s[..|s| - 1] + [last];
      assert multiset(s[..|s| - 1]) == multiset(s) - multiset{last} == multiset(rest);
      SumPermutation(s[..|s| - 1], rest);
    }
  }

  lemma CondensedUnique(fn: Fn, signed: bool, s: seq<int>, t: seq<int>, v: int, w: int)
    requires s != [] && multiset(s) == multiset(t)
    requires Condensed(fn, signed, s, v) && Condensed(fn, signed, t, w)
    ensures v == w
  {
    if fn == SumOp {
      SumPermutation(s, t);
      CongruentInRange(signed, v, w, Sum(s));
    } else {
      assert forall x :: x in multiset(s) <==> x in s;
      assert forall x :: x in multiset(t) <==> x in t;
    }
  }

  lemma CongruentInRange(signed: bool, v: int, w: int, x: int)
    requires InRange(signed, v) && InRange(signed, w) && (x - v) % TWO32 == 0 && (x - w) % TWO32 == 0
    ensures v == w
  {
  }

  /** Once some cell is not null, the order of the cells does not matter. */
  lemma OrderIrrelevant(fn: Fn, signed: bool, nulls: Option<Box>, cells: seq<int>, cells': seq<int>)
    requires forall i :: 0 <= i < |cells| ==> InRange(signed, cells[i])
    requires multiset(cells) == multiset(cells')
    requires exists i :: 0 <= i < |cells| && !IsNullValue(nulls, cells[i])
    ensures Run(fn, signed, nulls, cells) == Run(fn, signed, nulls, cells')
  {
    var live, live' := Live(nulls, cells), Live(nulls, cells');
    assert forall x :: x in multiset(cells) <==> x in cells;
    assert forall x :: x in multiset(cells') <==> x in cells';
    assert |cells| == |multiset(cells)| == |cells'|;
    forall v ensures multiset(live)[v] == multiset(live')[v] {
      LiveMultiset(nulls, cells, v);
      LiveMultiset(nulls, cells', v);
    }
    assert multiset(live) == multiset(live');
    assert |live| == |multiset(live)| == |live'|;
    var i :| 0 <= i < |cells| && !IsNullValue(nulls, cells[i]);
    LiveMultiset(nulls, cells, cells[i]);
    assert cells[i] in multiset(live);
    forall j | 0 <= j < |cells'| ensures InRange(signed, cells'[j]) { assert cells'[j] in cells; }
    RunMeaning(fn, signed, nulls, cells);
    RunMeaning(fn, signed, nulls, cells');
    CondensedUnique(fn, signed, live, live', Run(fn, signed, nulls, cells).accu, Run(fn, signed, nulls, cells').accu);
  }

  /** The order does not matter exactly if some cell is not null or all cells are equal. */
  lemma OrderIrrelevantIff(fn: Fn, signed: bool, nulls: Option<Box>, cells: seq<int>)
    requires cells != [] && forall i :: 0 <= i < |cells| ==> InRange(signed, cells[i])
    ensures (forall cells' | multiset(cells') == multiset(cells) :: Run(fn, signed, nulls, cells') == Run(fn, signed, nulls, cells))
            <==> (exists i :: 0 <= i < |cells| && !IsNullValue(nulls, cells[i]))
                 || (forall i :: 0 <= i < |cells| ==> cells[i] == cells[0])
  {
    hide Run, IsNullValue, InRange;
    if i :| 0 <= i < |cells| && !IsNullValue(nulls, cells[i]) {
      forall cells' | multiset(cells') == multiset(cells) ensures Run(fn, signed, nulls, cells') == Run(fn, signed, nulls, cells) {
        OrderIrrelevant(fn, signed, nulls, cells, cells');
      }
    } else if i :| 0 <= i < |cells| && cells[i] != cells[0] {
      var swapped := cells[0 := cells[i]][i := cells[0]];
      Swapped(cells, i);
      AllNull(fn, signed, nulls, cells);
      AllNull(fn, signed, nulls, swapped);
    } else {
      forall cells' | multiset(cells') == multiset(cells) ensures Run(fn, signed, nulls, cells') == Run(fn, signed, nulls, cells) {
        SameCells(cells, cells');
      }
    }
  }

  lemma Swapped(cells: seq<int>, i: nat)
    requires 0 < i < |cells|
    ensures multiset(cells[0 := cells[i]][i := cells[0]]) == multiset(cells)
  {
  }

  lemma SameCells(cells: seq<int>, cells': seq<int>)
    requires cells != [] && (forall i :: 0 <= i < |cells| ==> cells[i] == cells[0]) && multiset(cells') == multiset(cells)
    ensures cells' == cells
  {
    assert |cells'| == |multiset(cells')| == |cells|;
    forall i | 0 <= i < |cells'| ensures cells'[i] == cells[0] { assert cells'[i] in multiset(cells'); }
  }

  /** With only nulls the result is the first cell. */
  lemma AllNull(fn: Fn, signed: bool, nulls: Option<Box>, cells: seq<int>)
    requires cells != [] && forall i :: 0 <= i < |cells| ==> InRange(signed, cells[i]) && IsNullValue(nulls, cells[i])
    ensures Run(fn, signed, nulls, cells).accu == cells[0]
  {
    hide Run, IsNullValue;
    RunMeaning(fn, signed, nulls, cells);
    NoneLive(nulls, cells);
  }

  lemma {:induction false} NoneLive(nulls: Option<Box>, cells: seq<int>)
    requires forall i :: 0 <= i < |cells| ==> IsNullValue(nulls, cells[i])
    ensures Live(nulls, cells) == []
  {
    if cells != [] { NoneLive(nulls, cells[..|cells| - 1]); }
  }

  /** With only nulls the result is the first cell, so it does depend on the order. */
  lemma AllNullDependsOnOrder()
    ensures var nulls := Some([Interval(1, 2)]);
            Run(MaxOp, true, nulls, [1, 2]).accu != Run(MaxOp, true, nulls, [2, 1]).accu
  {
    var nulls := Some([Interval(1, 2)]);
    assert nulls.value[0].Has(1) && nulls.value[0].Has(2);
    assert Live(nulls, [1, 2]) == [] by { assert [1, 2][..1] == [1] && [1][..0] == []; }
    assert Live(nulls, [2, 1]) == [] by { assert [2, 1][..1] == [2] && [2][..0] == []; }
    RunMeaning(MaxOp, true, nulls, [1, 2]);
    RunMeaning(MaxOp, true, nulls, [2, 1]);
  }
}

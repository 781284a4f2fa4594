/**
 Decoding a GRIB file: the bounding box of the message domains, the place of a message's slice in the target,
 and the loop over the messages.
 */
module Grib {
  import opened Prelude
  import opened Boxes
  import opened GribPlane

  // ---------- the bounding box ----------

  function PlaneOf(b: Box): Plane
    requires |b| >= 2
  {
    Plane(b[|b| - 2], b[|b| - 1])
  }

  predicate IsSlice(i: Interval) { i.Extent() == 1 }

  /** Every axis but the last two is a single position, and those two are not. */
  predicate CheckDomain(b: Box) {
    |b| >= 2 && (forall i :: 0 <= i < |b| - 2 ==> IsSlice(b[i])) && !IsSlice(b[|b| - 2]) && !IsSlice(b[|b| - 1])
  }

  /** Domains of rank two and three, and what spoils them. */
  lemma CheckDomainExamples()
    ensures var wide, one := Interval(0, 9), Interval(5, 5);
            && CheckDomain([wide, wide]) && CheckDomain([one, wide, wide]) && CheckDomain([one, one, wide, wide])
            && !CheckDomain([]) && !CheckDomain([wide]) && !CheckDomain([wide, wide, wide])
            && !CheckDomain([one, wide]) && !CheckDomain([wide, one]) && !CheckDomain([one, one, wide])
  {
    assert [Interval(0, 9), Interval(0, 9), Interval(0, 9)][0] == Interval(0, 9);
  }

  predicate Matches(b: Box, first: Box) {
    CheckDomain(b) && CheckDomain(first) && |b| == |first| && PlaneOf(b) == PlaneOf(first)
  }

  predicate Acceptable(order: seq<Box>) {
    order != [] && forall j :: 0 <= j < |order| ==> Matches(order[j], order[0])
  }

  /** A set of domains is accepted for its own sake: of one rank, with the same x/y bounds, and not empty. */
  lemma AcceptableExamples()
    ensures var x, y, one, two := Interval(0, 9), Interval(0, 4), Interval(1, 1), Interval(2, 2);
            && Acceptable([[one, x, y], [two, x, y]]) && Acceptable([[x, y]])
            && !Acceptable([]) && !Acceptable([[one, x, y], [two, y, x]]) && !Acceptable([[one, x, y], [x, y]])
            && !Acceptable([[one, x, y], [x, x, y]])
  {
    var x, y, one, two := Interval(0, 9), Interval(0, 4), Interval(1, 1), Interval(2, 2);
    var swapped, ranks, spread := [[one, x, y], [two, y, x]], [[one, x, y], [x, y]], [[one, x, y], [x, x, y]];
    assert !Matches(swapped[1], swapped[0]) && !Matches(ranks[1], ranks[0]);
    assert !IsSlice(spread[1][0]) && !Matches(spread[1], spread[0]);
  }

  predicate ContainsAll(order: seq<Box>, c: Box) { forall j :: 0 <= j < |order| ==> Inside(order[j], c) }

  ghost predicate LeastBox(order: seq<Box>, r: Box) {
    ContainsAll(order, r) && forall c: Box :: ContainsAll(order, c) ==> Inside(r, c)
  }

  predicate AllValid(order: seq<Box>) { forall j :: 0 <= j < |order| ==> Valid(order[j]) }

  /** `ret` after its first n axes have been widened to those of `b`. */
  function Widened(ret: Box, b: Box, n: nat): (r: Box)
    requires n <= |ret| == |b|
    ensures |r| == |ret|
  {
    seq(|ret|, i requires 0 <= i < |ret| =>
      if i < n then Interval(Min(ret[i].lo, b[i].lo), Max(ret[i].hi, b[i].hi)) else ret[i])
  }

  lemma WidenedLeast(order: seq<Box>, j: nat, ret: Box)
    requires 0 < j < |order| && Acceptable(order)
    requires |ret| == |order[0]| && PlaneOf(ret) == PlaneOf(order[0]) && LeastBox(order[..j], ret)
    ensures LeastBox(order[..j + 1], Widened(ret, order[j], |ret| - 2))
  {
    var b, r := order[j], Widened(ret, order[j], |ret| - 2);
    assert Matches(b, order[0]);
    var o, o' := order[..j], order[..j + 1];
    forall k | 0 <= k < |o'| ensures Inside(o'[k], r) {
      if k < j { assert Inside(o[k], ret); }
    }
    forall c: Box | ContainsAll(o', c) ensures Inside(r, c) {
      forall k | 0 <= k < |o| ensures Inside(o[k], c) {
        assert o'[k] == o[k];
      }
      assert Inside(o'[j], c) && Inside(ret, c);
    }
  }

  /** The part of `computeBoundingBox` that widens the slice axes to a further domain. */
  method Widen(box: Box, b: Box) returns (ret: Box)
    requires |box| == |b| >= 2
    ensures ret == Widened(box, b, |box| - 2)
  {
    ret := box;
    for i := 0 to |box| - 2
      invariant ret == Widened(box, b, i)
    {
      if b[i].hi > ret[i].hi { ret := ret[i := Interval(ret[i].lo, b[i].hi)]; }
      if b[i].lo < ret[i].lo { ret := ret[i := Interval(b[i].lo, ret[i].hi)]; }
    }
  }

  /**
   `computeBoundingBox`, for whatever order the hash map yields the domains in. A domain of fewer than two axes
   makes the axis access fail, an error like the others.
   */
  method ComputeBoundingBox(order: seq<Box>) returns (r: Option<Box>)
    requires order != [] && AllValid(order)
    ensures r.Some? <==> Acceptable(order)
    ensures r.Some? ==> Valid(r.value) && LeastBox(order, r.value)
                        && |r.value| == |order[0]| >= 2 && PlaneOf(r.value) == PlaneOf(order[0])
  {
    var ret := order[0];
    if !CheckDomain(ret) { assert !Matches(order[0], order[0]); return None; }
    var dims := |ret|;
    assert order[..1] == [ret];
    assert Matches(order[0], order[0]);
    var j := 1;
    while j < |order|
      invariant 1 <= j <= |order| && Acceptable(order[..j]) && Valid(ret)
      invariant |ret| == dims == |order[0]| && PlaneOf(ret) == PlaneOf(order[0]) && LeastBox(order[..j], ret)
    {
      var b := order[j];
      if |b| != dims || !CheckDomain(b) { assert !Matches(order[j], order[0]); return None; }
      ghost var before := ret;
      ret := Widen(ret, b);
      for i := dims - 2 to dims
        invariant forall k :: dims - 2 <= k < i ==> b[k] == ret[k]
      {
        if b[i] != ret[i] { assert PlaneOf(b) != PlaneOf(order[0]); assert !Matches(order[j], order[0]); return None; }
      }
      assert Matches(b, order[0]);
      assert Acceptable(order[..j + 1]) by {
        assert order[..j + 1] == order[..j] + [b];
      }
      LeastBoxNext(order, j, before);
      j := j + 1;
    }
    assert order[..j] == order;
    return Some(ret);
  }

  lemma LeastBoxNext(order: seq<Box>, j: nat, ret: Box)
    requires 0 < j < |order| && Acceptable(order[..j + 1])
    requires |ret| == |order[0]| && PlaneOf(ret) == PlaneOf(order[0]) && LeastBox(order[..j], ret)
    ensures LeastBox(order[..j + 1], Widened(ret, order[j], |ret| - 2))
  {
    var o := order[..j + 1];
    assert o[..j] == order[..j] && o[..j + 1] == o;
    WidenedLeast(o, j, ret);
  }

  /** The outcome does not depend on the order in which the domains are visited, nor on repetitions. */
  lemma BoundingBoxUnordered(o1: seq<Box>, o2: seq<Box>, r1: Box, r2: Box)
    requires o1 != [] && o2 != [] && forall b: Box :: b in o1 <==> b in o2
    ensures Acceptable(o1) <==> Acceptable(o2)
    ensures LeastBox(o1, r1) && LeastBox(o2, r2) ==> r1 == r2
  {
    if Acceptable(o1) { SameAcceptable(o1, o2); }
    if Acceptable(o2) { SameAcceptable(o2, o1); }
    if LeastBox(o1, r1) && LeastBox(o2, r2) {
      SameContains(o1, o2, r1);
      SameContains(o2, o1, r2);
      assert Inside(r1, r2) && Inside(r2, r1);
      assert forall i :: 0 <= i < |r1| ==> r1[i].lo == r2[i].lo && r1[i].hi == r2[i].hi;
    }
  }

  lemma SameAcceptable(o1: seq<Box>, o2: seq<Box>)
    requires o1 != [] && o2 != [] && (forall b: Box :: b in o1 <==> b in o2) && Acceptable(o1)
    ensures Acceptable(o2)
  {
    assert forall b: Box :: b in o1 ==> Matches(b, o1[0]);
    forall j | 0 <= j < |o2| ensures Matches(o2[j], o2[0]) {
      assert o2[j] in o1 && o2[0] in o1;
    }
  }

  lemma SameContains(o1: seq<Box>, o2: seq<Box>, c: Box)
    requires (forall b: Box :: b in o1 <==> b in o2) && ContainsAll(o1, c)
    ensures ContainsAll(o2, c)
  {
    assert forall b: Box :: b in o1 ==> Inside(b, c);
    forall j | 0 <= j < |o2| ensures Inside(o2[j], c) { assert o2[j] in o1; }
  }

  // ---------- where a slice lies ----------

  function Slices(b: Box): Box
    requires |b| >= 2
  {
    b[..|b| - 2]
  }

  function Lows(b: Box): (p: Point)
    ensures |p| == |b|
  {
    seq(|b|, i requires 0 <= i < |b| => b[i].lo)
  }

  /** A target cell is number ByColumn of its slice, and slices follow one another. */
  lemma CellNumber(target: Box, p: Point)
    requires |target| >= 2 && Valid(target) && Covers(target, p)
    ensures var d := |target| - 2; var s := PlaneOf(target);
            && s.Ok() && Covers(Slices(target), p[..d]) && s.Has(p[d], p[d + 1])
            && Offset(target, p) == Offset(Slices(target), p[..d]) * s.Area() + s.ByColumn(p[d], p[d + 1])
            && 0 <= s.ByColumn(p[d], p[d + 1]) < s.Area()
  {
    var d, s := |target| - 2, PlaneOf(target);
    var t1, p1 := target[..d + 1], p[..d + 1];
    OffsetSplit(target, p);
    OffsetSplit(t1, p1);
    assert t1[..d] == Slices(target) && p1[..d] == p[..d];
    var o := Offset(Slices(target), p[..d]);
    Distribute(o, s.W(), p[d] - s.x.lo, s.H());
    assert s.W() * s.H() == s.H() * s.W();
    ByColumnBound(s, p[d], p[d + 1]);
  }

  lemma Regroup(c: int, w: int, h: int)
    ensures c * w * h == c * (h * w)
  {
    Distribute(c, w, 0, h);
    assert w * h == h * w;
  }

  lemma TargetSize(target: Box)
    requires |target| >= 2 && Valid(target)
    ensures CellCount(target) == CellCount(Slices(target)) * PlaneOf(target).Area()
  {
    hide CellCount;
    var d, s := |target| - 2, PlaneOf(target);
    CellCountSplit(target);
    CellCountSplit(target[..d + 1]);
    assert target[..d + 1][..d] == Slices(target);
    Regroup(CellCount(Slices(target)), s.W(), s.H());
  }

  /** First cell of the slice at a position. */
  function SliceStart(target: Box, q: Point): int
    requires |target| >= 2 && Valid(target) && Covers(Slices(target), q)
  {
    Offset(Slices(target), q) * PlaneOf(target).Area()
  }

  /** Slices are inside the target and do not overlap unless they are at the same position. */
  lemma SlicesApart(target: Box, q: Point, q': Point)
    requires |target| >= 2 && Valid(target) && Covers(Slices(target), q) && Covers(Slices(target), q')
    ensures 0 <= SliceStart(target, q) && SliceStart(target, q) + PlaneOf(target).Area() <= CellCount(target)
    ensures q != q' ==> SliceStart(target, q) + PlaneOf(target).Area() <= SliceStart(target, q')
                        || SliceStart(target, q') + PlaneOf(target).Area() <= SliceStart(target, q)
  {
    hide CellCount, Offset, PointAt, Plane.Area;
    var o, o', a := Offset(Slices(target), q), Offset(Slices(target), q'), PlaneOf(target).Area();
    TargetSize(target);
    OffsetBound(Slices(target), q);
    Ranges(o, CellCount(Slices(target)) - 1, a);
    MulMono(0, o, a);
    PointAtOffset(Slices(target), q);
    PointAtOffset(Slices(target), q');
    if o < o' { Ranges(o, o' - 1, a); } else if o' < o { Ranges(o', o - 1, a); }
  }

  lemma Ranges(x: int, y: int, a: int)
    requires x <= y && a >= 0
    ensures x * a + a <= (y + 1) * a
  {
    MulMono(x + 1, y + 1, a);
    assert (x + 1) * a == x * a + a;
  }

  /** `getSliceOffset`, in bytes: mixed-radix digits from the last slice axis to the first. */
  method GetSliceOffset(domain: Box, messageDomain: Box, xyLen: nat) returns (ret: nat)
    requires |domain| == |messageDomain| >= 2 && Valid(domain)
    requires Covers(Slices(domain), Lows(Slices(messageDomain)))
    ensures ret == Offset(Slices(domain), Lows(Slices(messageDomain))) * xyLen * 8
  {
    ghost var b, p := Slices(domain), Lows(Slices(messageDomain));
    var d := |domain| - 2;
    assert forall i :: 0 <= i < d ==> b[i] == domain[i] && p[i] == messageDomain[i].lo;
    hide CellCount, Offset, Covers, Slices, Lows;
    var sum: int := 0;
    var prevDimsTotal := xyLen;
    var i := d - 1;
    LastDigit(b, p);
    MulZero(xyLen);
    while i >= 0
      invariant -1 <= i < d && Covers(b[i + 1..], p[i + 1..])
      invariant prevDimsTotal == CellCount(b[i + 1..]) * xyLen && sum == Offset(b[i + 1..], p[i + 1..]) * xyLen
    {
      var dimExtent := messageDomain[i].lo - domain[i].lo;
      NextDigit(b, p, i, xyLen);
      assert dimExtent == p[i] - b[i].lo;
      sum := sum + dimExtent * prevDimsTotal;
      prevDimsTotal := prevDimsTotal * domain[i].Extent();
      i := i - 1;
    }
    assert b[0..] == b && p[0..] == p;
    MulMono(0, Offset(b, p), xyLen);
    ret := sum * 8;
  }

  lemma LastDigit(b: Box, p: Point)
    requires Valid(b) && Covers(b, p)
    ensures Covers(b[|b|..], p[|b|..]) && CellCount(b[|b|..]) == 1 && Offset(b[|b|..], p[|b|..]) == 0
  {
  }

  lemma NextDigit(b: Box, p: Point, i: nat, a: nat)
    requires Valid(b) && Covers(b, p) && i < |b|
    ensures Covers(b[i..], p[i..]) && Covers(b[i + 1..], p[i + 1..])
    ensures CellCount(b[i..]) * a == (CellCount(b[i + 1..]) * a) * b[i].Extent()
    ensures Offset(b[i..], p[i..]) * a == Offset(b[i + 1..], p[i + 1..]) * a + (p[i] - b[i].lo) * (CellCount(b[i + 1..]) * a)
  {
    CountSuffix(b, i);
    assert b[i..][0] == b[i] && b[i..][1..] == b[i + 1..] && p[i..][0] == p[i] && p[i..][1..] == p[i + 1..];
    Distribute(b[i].Extent(), CellCount(b[i + 1..]), 0, a);
    Distribute(p[i] - b[i].lo, CellCount(b[i + 1..]), Offset(b[i + 1..], p[i + 1..]), a);
    assert b[i].Extent() * (CellCount(b[i + 1..]) * a) == (CellCount(b[i + 1..]) * a) * b[i].Extent();
  }

  // ---------- one message ----------

  predicate Touches(a: Interval, b: Interval) { a.lo <= b.hi && b.lo <= a.hi }

  predicate Intersects(a: Box, b: Box) {
    |a| == |b| && forall i :: 0 <= i < |a| ==> Touches(a[i], b[i])
  }

  function Intersection(a: Box, b: Box): (r: Box)
    requires |a| == |b|
    ensures |r| == |a|
  {
    seq(|a|, i requires 0 <= i < |a| => Interval(Max(a[i].lo, b[i].lo), Min(a[i].hi, b[i].hi)))
  }

  /** It is what the two have in common, and there is something exactly if they intersect. */
  lemma IntersectionCommon(a: Box, b: Box)
    requires |a| == |b| && Valid(a) && Valid(b)
    ensures forall p :: Covers(Intersection(a, b), p) <==> Covers(a, p) && Covers(b, p)
    ensures Intersects(a, b) <==> exists p :: Covers(a, p) && Covers(b, p)
    ensures |a| >= 2 ==> PlaneOf(Intersection(a, b)) == Meet(PlaneOf(b), PlaneOf(a))
  {
    var r := Intersection(a, b);
    forall p ensures Covers(r, p) <==> Covers(a, p) && Covers(b, p) {
      if Covers(r, p) { assert forall i :: 0 <= i < |r| ==> r[i].Has(p[i]); }
    }
    if Intersects(a, b) {
      assert forall i :: 0 <= i < |a| ==> Touches(a[i], b[i]);
      assert Covers(a, Lows(r)) && Covers(b, Lows(r));
    }
  }

  /** The value of a message at a point of its domain. */
  function MessageValue(values: seq<real>, domain: Box, p: Point): real
    requires |domain| >= 2 && Valid(domain) && Covers(domain, p) && |values| == PlaneOf(domain).Area()
  {
    var d := |domain| - 2;
    ByRowBound(PlaneOf(domain), p[d], p[d + 1]);
    values[PlaneOf(domain).ByRow(p[d], p[d + 1])]
  }

  /** A message domain and the target of the conversion; without a subset the target is the bounding box. */
  predicate Decodable(target: Box, domain: Box, subsetSpecified: bool) {
    && |target| == |domain| >= 2 && Valid(target) && Valid(domain) && CheckDomain(domain)
    && (!subsetSpecified ==> Inside(domain, target) && PlaneOf(domain) == PlaneOf(target))
  }

  /** The message has cells in the target. */
  predicate Used(target: Box, domain: Box, subsetSpecified: bool) { !subsetSpecified || Intersects(target, domain) }

  /** The message is used, and a slice of the target does not fit its buffer. */
  predicate Overruns(target: Box, domain: Box, subsetSpecified: bool)
    requires Decodable(target, domain, subsetSpecified)
  {
    Used(target, domain, subsetSpecified) && !BufferHolds(PlaneOf(domain), PlaneOf(target))
  }

  /** The cell of a target at a point. */
  function CellOf(cells: seq<real>, target: Box, p: Point): real
    requires Valid(target) && Covers(target, p) && |cells| == CellCount(target)
  {
    OffsetBound(target, p);
    cells[Offset(target, p)]
  }

  /** The message's values are in the target, and every other cell is as before. */
  predicate CellDecoded(before: seq<real>, after: seq<real>, values: seq<real>, target: Box, domain: Box, p: Point)
    requires Valid(target) && Covers(target, p) && |before| == |after| == CellCount(target)
    requires |domain| >= 2 && Valid(domain) && |values| == PlaneOf(domain).Area()
  {
    CellOf(after, target, p) == if Covers(domain, p) then MessageValue(values, domain, p) else CellOf(before, target, p)
  }

  lemma CommonPoint(target: Box, domain: Box, p: Point)
    requires |target| == |domain| && Covers(target, p) && Covers(domain, p)
    ensures Intersects(target, domain)
  {
    forall i | 0 <= i < |target| ensures Touches(target[i], domain[i]) {
      assert target[i].Has(p[i]) && domain[i].Has(p[i]);
    }
  }

  lemma SliceCovered(target: Box, domain: Box, subsetSpecified: bool)
    requires Decodable(target, domain, subsetSpecified) && Used(target, domain, subsetSpecified)
    ensures var q := Lows(Slices(domain));
            Covers(Slices(target), q) && (subsetSpecified ==> q == Lows(Slices(Intersection(target, domain))))
    ensures PlaneOf(domain).Ok() && PlaneOf(target).Ok() && Meet(PlaneOf(domain), PlaneOf(target)).Ok()
    ensures PlaneOf(domain).W() > 1 && PlaneOf(domain).H() > 1
  {
    var d, q := |domain| - 2, Lows(Slices(domain));
    forall i | 0 <= i < d ensures Slices(target)[i].Has(q[i]) {
      assert IsSlice(domain[i]) && target[i].lo <= target[i].hi;
      if subsetSpecified { assert Touches(target[i], domain[i]); }
    }
    if subsetSpecified {
      assert Touches(target[d], domain[d]) && Touches(target[d + 1], domain[d + 1]);
    }
  }

  /** A point is in the domain of a message exactly when it is in its slice and its x/y range. */
  lemma DomainPoint(target: Box, domain: Box, p: Point)
    requires |target| == |domain| >= 2 && Covers(target, p) && CheckDomain(domain) && Valid(domain)
    ensures var d := |domain| - 2;
            Covers(domain, p) <==> p[..d] == Lows(Slices(domain)) && PlaneOf(domain).Has(p[d], p[d + 1])
  {
    var d, q := |domain| - 2, Lows(Slices(domain));
    if p[..d] == q && PlaneOf(domain).Has(p[d], p[d + 1]) {
      forall i | 0 <= i < |domain| ensures domain[i].Has(p[i]) {
        if i < d { assert p[i] == q[i]; }
      }
    }
    if Covers(domain, p) {
      forall i | 0 <= i < d ensures p[..d][i] == q[i] { assert IsSlice(domain[i]) && domain[i].Has(p[i]); }
    }
  }

  /** First cell of the slice a message goes to. */
  function SliceOf(target: Box, domain: Box, subsetSpecified: bool): (at: nat)
    requires Decodable(target, domain, subsetSpecified) && Used(target, domain, subsetSpecified)
    ensures Covers(Slices(target), Lows(Slices(domain))) && at == SliceStart(target, Lows(Slices(domain)))
    ensures PlaneOf(target).Ok() && at + PlaneOf(target).Area() <= CellCount(target)
  {
    SliceCovered(target, domain, subsetSpecified);
    SlicesApart(target, Lows(Slices(domain)), Lows(Slices(domain)));
    SliceStart(target, Lows(Slices(domain)))
  }

  /** The target after a message. */
  function AfterMessage(before: seq<real>, target: Box, domain: Box, subsetSpecified: bool, values: seq<real>): (r: seq<real>)
    requires Decodable(target, domain, subsetSpecified)
    requires |before| == CellCount(target) && |values| == PlaneOf(domain).Area()
    ensures |r| == |before|
  {
    if !Used(target, domain, subsetSpecified) then before
    else
      var at, s := SliceOf(target, domain, subsetSpecified), PlaneOf(target);
      SliceCovered(target, domain, subsetSpecified);
      Put(before, at, SliceAfter(values, before[at..at + s.Area()], PlaneOf(domain), s))
  }

  /** A cell outside the message's slice keeps its value; one inside is right if it is right in the slice. */
  lemma PlacedCell(target: Box, domain: Box, subsetSpecified: bool, values: seq<real>, before: seq<real>, p: Point)
    requires Decodable(target, domain, subsetSpecified) && Covers(target, p)
    requires |before| == CellCount(target) && |values| == PlaneOf(domain).Area()
    ensures var d, m, s := |domain| - 2, PlaneOf(domain), PlaneOf(target);
            && s.Has(p[d], p[d + 1])
            && if Used(target, domain, subsetSpecified) && p[..d] == Lows(Slices(domain)) then
                 var at := SliceOf(target, domain, subsetSpecified);
                 && Placeable(values, before[at..at + s.Area()], m, s)
                 && (CellDecoded(before, AfterMessage(before, target, domain, subsetSpecified, values), values, target, domain, p)
                     <==> CellRight(values, before[at..at + s.Area()], m, s, p[d], p[d + 1]))
               else
                 CellDecoded(before, AfterMessage(before, target, domain, subsetSpecified, values), values, target, domain, p)
  {
    hide CellCount, Offset, Plane.Area, Plane.ByColumn, Plane.ByRow, SliceAfter, Put, PointAt;
    var d, q := |domain| - 2, Lows(Slices(domain));
    OffsetBound(target, p);
    CellNumber(target, p);
    if Used(target, domain, subsetSpecified) {
      SliceCovered(target, domain, subsetSpecified);
      DomainPoint(target, domain, p);
      SlicesApart(target, q, p[..d]);
    } else if Covers(domain, p) {
      CommonPoint(target, domain, p);
    }
  }

  /** If the subset fits, the message's values are in the target, and every other cell is as before. */
  lemma MessageDecoded(target: Box, domain: Box, subsetSpecified: bool, values: seq<real>, before: seq<real>, p: Point)
    requires Decodable(target, domain, subsetSpecified) && Covers(target, p)
    requires subsetSpecified && Intersects(target, domain) ==> Fits(PlaneOf(domain), PlaneOf(target))
    requires |before| == CellCount(target) && |values| == PlaneOf(domain).Area()
    ensures CellDecoded(before, AfterMessage(before, target, domain, subsetSpecified, values), values, target, domain, p)
  {
    hide CellCount, Plane.Area, AfterMessage, CellDecoded, CellRight, Placeable;
    PlacedCell(target, domain, subsetSpecified, values, before, p);
    if Used(target, domain, subsetSpecified) && p[..|domain| - 2] == Lows(Slices(domain)) {
      SliceCovered(target, domain, subsetSpecified);
      var at, s := SliceOf(target, domain, subsetSpecified), PlaneOf(target);
      FitsRight(values, before[at..at + s.Area()], PlaneOf(domain), s, p[|domain| - 2], p[|domain| - 1]);
    }
  }

  /** Decoding the message overruns nothing and is right, for all its values and all contents of the target. */
  ghost predicate MessageSound(target: Box, domain: Box, subsetSpecified: bool)
    requires Decodable(target, domain, subsetSpecified)
  {
    && !Overruns(target, domain, subsetSpecified)
    && forall values, before, p | |before| == CellCount(target) && |values| == PlaneOf(domain).Area() && Covers(target, p) ::
         CellDecoded(before, AfterMessage(before, target, domain, subsetSpecified, values), values, target, domain, p)
  }

  /** The exact condition on a subset that meets the message: it fits its x/y range and has no more cells per slice. */
  lemma MessageSoundIff(target: Box, domain: Box)
    requires Decodable(target, domain, true) && Intersects(target, domain)
    ensures PlaneOf(target).Ok() && PlaneOf(domain).Ok()
    ensures MessageSound(target, domain, true) <==>
            Fits(PlaneOf(domain), PlaneOf(target)) && PlaneOf(target).Area() <= PlaneOf(domain).Area()
  {
    hide CellCount, Plane.Area, AfterMessage, CellDecoded, Fits, SliceRight, CellRight;
    var m, s := PlaneOf(domain), PlaneOf(target);
    SliceCovered(target, domain, true);
    SoundIff(m, s);
    if Sound(m, s) {
      forall values, before, p | |before| == CellCount(target) && |values| == m.Area() && Covers(target, p)
        ensures CellDecoded(before, AfterMessage(before, target, domain, true, values), values, target, domain, p)
      {
        MessageDecoded(target, domain, true, values, before, p);
      }
    } else if BufferHolds(m, s) {
      BufferBound(m, s);
      WrongCell(target, domain);
    }
  }

  lemma BufferBound(m: Plane, s: Plane)
    requires m.Ok() && s.Ok() && BufferHolds(m, s)
    ensures s.Area() <= m.Area()
  {
  }

  lemma WrongCell(target: Box, domain: Box)
    requires Decodable(target, domain, true) && Intersects(target, domain) && !Fits(PlaneOf(domain), PlaneOf(target))
    ensures !MessageSound(target, domain, true)
  {
    hide CellCount, Plane.Area, AfterMessage, CellDecoded, CellRight, Fits, Marks, Ramp, Overruns;
    var d, m, s := |domain| - 2, PlaneOf(domain), PlaneOf(target);
    SliceCovered(target, domain, true);
    MisfitWrong(m, s);
    MarksLength(s.Area());
    MarksLength(m.Area());
    var px, py :| s.Has(px, py) && !CellRight(Ramp(m.Area()), Marks(s.Area()), m, s, px, py);
    var q := Lows(Slices(domain));
    var p := q + [px, py];
    assert p[..d] == q && p[d] == px && p[d + 1] == py;
    assert Covers(target, p) by { SlicePoint(target, q, px, py); }
    var at := SliceOf(target, domain, true);
    var before := Put(seq(CellCount(target), _ => 0.0), at, Marks(s.Area()));
    assert before[at..at + s.Area()] == Marks(s.Area());
    PlacedCell(target, domain, true, Ramp(m.Area()), before, p);
  }

  lemma MarksLength(n: nat)
    ensures |Marks(n)| == n && |Ramp(n)| == n
  {
  }

  lemma SlicePoint(target: Box, q: Point, px: int, py: int)
    requires |target| >= 2 && Covers(Slices(target), q) && PlaneOf(target).Has(px, py)
    ensures Covers(target, q + [px, py])
  {
    var d, p := |target| - 2, q + [px, py];
    forall i | 0 <= i < |target| ensures target[i].Has(p[i]) {
      if i < d { assert Slices(target)[i].Has(q[i]); }
    }
  }

  /** The body of the loop for a message that is specified and has the right size. */
  method DecodeMessage(dest: array<real>, data: array<real>, target: Box, domain: Box, subsetSpecified: bool)
    returns (ok: bool)
    requires dest != data && Decodable(target, domain, subsetSpecified)
    requires dest.Length == CellCount(target) && data.Length == PlaneOf(domain).Area()
    modifies dest, data
    ensures ok <==> !Overruns(target, domain, subsetSpecified)
    ensures ok ==> dest[..] == AfterMessage(old(dest[..]), target, domain, subsetSpecified, old(data[..]))
  {
    hide CellCount, Offset, Plane.Area, Plane.ByColumn, Plane.ByRow, SliceAfter, Put, BufferHolds;
    if subsetSpecified && !Intersects(target, domain) { return true; }
    var targetDomain := if subsetSpecified then Intersection(target, domain) else domain;
    SliceCovered(target, domain, subsetSpecified);
    var sliceOffset := GetSliceOffset(target, targetDomain, PlaneOf(target).Area());
    assert sliceOffset / 8 == SliceOf(target, domain, subsetSpecified);
    ok := DecodeSlice(dest, sliceOffset / 8, data, PlaneOf(domain), PlaneOf(target), subsetSpecified);
  }

  // ---------- the loop over the messages ----------

  /** Message j (from 1) is the j-th of the file; `ni` and `nj` are its grid sizes. */
  datatype Message = Message(ni: int, nj: int, values: seq<real>)

  predicate RightSize(m: Message, s: Plane)
    requires s.Ok()
  {
    m.ni == s.W() && m.nj == s.H() && |m.values| == s.Area()
  }

  /** The message ids 1, 2, ... up to the first one without a domain, at most n of them. */
  function LeadingIds(domains: map<int, Box>, n: nat): (k: nat)
    ensures k <= n && (k < n ==> k + 1 !in domains)
    ensures forall j :: 1 <= j <= k ==> j in domains
  {
    if n == 0 then 0
    else
      var k := LeadingIds(domains, n - 1);
      if k == n - 1 && n in domains then n else k
  }

  predicate Readable(file: seq<Message>, domains: map<int, Box>, j: int)
    requires 1 <= j <= |file| && j in domains
  {
    |domains[j]| >= 2 && Valid(domains[j]) && RightSize(file[j - 1], PlaneOf(domains[j]))
  }

  predicate AllReadable(file: seq<Message>, domains: map<int, Box>, k: nat)
    requires k <= |file| && forall j :: 1 <= j <= k ==> j in domains
  {
    forall j :: 1 <= j <= k ==> Readable(file, domains, j)
  }

  /** The value of the last of the first k messages whose domain has the point, 0 if there is none. */
  function ValueAt(file: seq<Message>, domains: map<int, Box>, k: nat, p: Point): real
    requires k <= |file| && (forall j :: 1 <= j <= k ==> j in domains) && AllReadable(file, domains, k)
  {
    if k == 0 then 0.0
    else
      assert Readable(file, domains, k);
      if Covers(domains[k], p) then MessageValue(file[k - 1].values, domains[k], p) else ValueAt(file, domains, k - 1, p)
  }

  predicate Decoded(cells: seq<real>, target: Box, file: seq<Message>, domains: map<int, Box>, k: nat, p: Point)
    requires k <= |file| && (forall j :: 1 <= j <= k ==> j in domains) && AllReadable(file, domains, k)
    requires Valid(target) && Covers(target, p) && |cells| == CellCount(target)
  {
    CellOf(cells, target, p) == ValueAt(file, domains, k, p)
  }

  /** How the loop over the first k messages ends, if each has a domain. */
  datatype Verdict = Fine | WrongSize | Overrun

  ghost predicate AllDecodable(target: Box, domains: map<int, Box>, subsetSpecified: bool) {
    forall j :: j in domains ==> Decodable(target, domains[j], subsetSpecified)
  }

  ghost function FirstFault(file: seq<Message>, domains: map<int, Box>, target: Box, subsetSpecified: bool, k: nat): Verdict
    requires k <= |file| && (forall j :: 1 <= j <= k ==> j in domains) && AllDecodable(target, domains, subsetSpecified)
  {
    if k == 0 then Fine
    else if !FirstFault(file, domains, target, subsetSpecified, k - 1).Fine? then
      FirstFault(file, domains, target, subsetSpecified, k - 1)
    else if !Readable(file, domains, k) then WrongSize
    else if Overruns(target, domains[k], subsetSpecified) then Overrun
    else Fine
  }

  /** The loop comes through exactly if all messages have the right size and none overruns its buffer. */
  lemma {:induction false} FineIff(file: seq<Message>, domains: map<int, Box>, target: Box, subsetSpecified: bool, k: nat)
    requires k <= |file| && (forall j :: 1 <= j <= k ==> j in domains) && AllDecodable(target, domains, subsetSpecified)
    ensures FirstFault(file, domains, target, subsetSpecified, k).Fine? <==>
            AllReadable(file, domains, k) && forall j :: 1 <= j <= k ==> !Overruns(target, domains[j], subsetSpecified)
  {
    hide Readable, Overruns;
    if k > 0 { FineIff(file, domains, target, subsetSpecified, k - 1); }
  }

  /** The target after the first k messages, from zeroes. */
  ghost function AfterMessages(file: seq<Message>, domains: map<int, Box>, target: Box, subsetSpecified: bool, k: nat): (r: seq<real>)
    requires k <= |file| && (forall j :: 1 <= j <= k ==> j in domains) && AllDecodable(target, domains, subsetSpecified)
    requires Valid(target) && AllReadable(file, domains, k)
    ensures |r| == CellCount(target)
  {
    if k == 0 then seq(CellCount(target), _ => 0.0)
    else
      assert Readable(file, domains, k);
      AfterMessage(AfterMessages(file, domains, target, subsetSpecified, k - 1), target, domains[k], subsetSpecified,
                   file[k - 1].values)
  }

  /** With a subset that fits, or none, each cell has the value of the last message that has it. */
  lemma {:induction false} AllDecoded(file: seq<Message>, domains: map<int, Box>, target: Box, subsetSpecified: bool, k: nat, p: Point)
    requires k <= |file| && (forall j :: 1 <= j <= k ==> j in domains) && AllDecodable(target, domains, subsetSpecified)
    requires Valid(target) && AllReadable(file, domains, k) && Covers(target, p)
    requires forall j :: 1 <= j <= k && subsetSpecified ==> Fits(PlaneOf(domains[j]), PlaneOf(target))
    ensures Decoded(AfterMessages(file, domains, target, subsetSpecified, k), target, file, domains, k, p)
  {
    hide CellCount, Offset, Fits, AfterMessage, Plane.Area;
    OffsetBound(target, p);
    if k > 0 {
      AllDecoded(file, domains, target, subsetSpecified, k - 1, p);
      assert Readable(file, domains, k);
      var before := AfterMessages(file, domains, target, subsetSpecified, k - 1);
      MessageDecoded(target, domains[k], subsetSpecified, file[k - 1].values, before, p);
    }
  }

  lemma LeadingIdsStep(domains: map<int, Box>, n: nat)
    ensures LeadingIds(domains, 0) == 0
    ensures var k := LeadingIds(domains, n);
            if k + 1 in domains then k == n && LeadingIds(domains, n + 1) == n + 1 else LeadingIds(domains, n + 1) == k
  {
  }

  lemma {:induction false} LeadingIdsGrow(domains: map<int, Box>, a: nat, b: nat)
    requires a <= b
    ensures LeadingIds(domains, a) <= LeadingIds(domains, b)
  {
    if a < b { LeadingIdsGrow(domains, a, b - 1); }
  }

  /** What message k + 1 adds to k messages without a fault. */
  lemma NextMessage(file: seq<Message>, domains: map<int, Box>, target: Box, subsetSpecified: bool, k: nat)
    requires k < |file| && (forall j :: 1 <= j <= k + 1 ==> j in domains) && AllDecodable(target, domains, subsetSpecified)
    requires Valid(target) && AllReadable(file, domains, k) && FirstFault(file, domains, target, subsetSpecified, k).Fine?
    ensures FirstFault(file, domains, target, subsetSpecified, k + 1) ==
            if !Readable(file, domains, k + 1) then WrongSize
            else if Overruns(target, domains[k + 1], subsetSpecified) then Overrun else Fine
    ensures Readable(file, domains, k + 1) ==>
      && AllReadable(file, domains, k + 1) && |file[k].values| == PlaneOf(domains[k + 1]).Area()
      && AfterMessages(file, domains, target, subsetSpecified, k + 1)
         == AfterMessage(AfterMessages(file, domains, target, subsetSpecified, k), target, domains[k + 1], subsetSpecified,
                         file[k].values)
  {
    hide CellCount, Plane.Area, AfterMessage, Overruns, Decodable;
  }

  lemma NoMessage(file: seq<Message>, domains: map<int, Box>, target: Box, subsetSpecified: bool, cells: seq<real>)
    requires AllDecodable(target, domains, subsetSpecified) && Valid(target)
    requires |cells| == CellCount(target) && forall i :: 0 <= i < |cells| ==> cells[i] == 0.0
    ensures FirstFault(file, domains, target, subsetSpecified, 0).Fine?
    ensures cells == AfterMessages(file, domains, target, subsetSpecified, 0)
  {
  }

  /** A fault ends the loop: later messages do not change the verdict. */
  lemma {:induction false} FaultStays(file: seq<Message>, domains: map<int, Box>, target: Box, subsetSpecified: bool, i: nat, k: nat)
    requires i <= k <= |file| && (forall j :: 1 <= j <= k ==> j in domains) && AllDecodable(target, domains, subsetSpecified)
    requires !FirstFault(file, domains, target, subsetSpecified, i).Fine?
    ensures FirstFault(file, domains, target, subsetSpecified, k) == FirstFault(file, domains, target, subsetSpecified, i)
  {
    if i < k { FaultStays(file, domains, target, subsetSpecified, i, k - 1); }
  }

  lemma SizeDecides(file: seq<Message>, domains: map<int, Box>, j: int, target: Box, s: Plane, subsetSpecified: bool)
    requires 1 <= j <= |file| && j in domains && s.Ok()
    requires Decodable(target, domains[j], subsetSpecified) && PlaneOf(domains[j]) == s
    ensures Readable(file, domains, j) <==>
            file[j - 1].ni == s.W() && file[j - 1].nj == s.H() && |file[j - 1].values| == s.Area()
  {
    hide Plane.Area;
  }

  /**
   The loop over the messages. A message without a domain is skipped without counting it, so that all later
   messages are looked up under its id and skipped too.
   */
  method DecodeMessages(file: seq<Message>, domains: map<int, Box>, target: Box, s: Plane, subsetSpecified: bool,
                        dest: array<real>) returns (v: Verdict)
    requires AllDecodable(target, domains, subsetSpecified) && forall j :: j in domains ==> PlaneOf(domains[j]) == s
    requires s.Ok() && Valid(target) && dest.Length == CellCount(target) && forall i :: 0 <= i < dest.Length ==> dest[i] == 0.0
    modifies dest
    ensures var k := LeadingIds(domains, |file|);
            && v == FirstFault(file, domains, target, subsetSpecified, k)
            && (v.Fine? ==> AllReadable(file, domains, k) &&
                            dest[..] == AfterMessages(file, domains, target, subsetSpecified, k))
  {
    hide CellCount, Plane.Area, Readable, LeadingIds, Offset, AfterMessage, Overruns, Decodable, FirstFault, AfterMessages;
    LeadingIdsStep(domains, 0);
    var data := new real[s.Area()];
    var messageIndex := 1;
    ghost var k := 0;
    NoMessage(file, domains, target, subsetSpecified, dest[..]);
    var n := 0;
    while n < |file|
      invariant 0 <= n <= |file| && k == LeadingIds(domains, n) && messageIndex == k + 1
      invariant AllReadable(file, domains, k) && FirstFault(file, domains, target, subsetSpecified, k).Fine?
      invariant dest[..] == AfterMessages(file, domains, target, subsetSpecified, k)
    {
      ghost var before := dest[..];
      var msg := file[n];
      LeadingIdsStep(domains, n);
      n := n + 1;
      if messageIndex !in domains { continue; }
      LeadingIdsGrow(domains, n, |file|);
      var domain := domains[messageIndex];
      assert Decodable(target, domain, subsetSpecified);
      SizeDecides(file, domains, messageIndex, target, s, subsetSpecified);
      NextMessage(file, domains, target, subsetSpecified, k);
      if msg.ni != s.W() || msg.nj != s.H() || |msg.values| != s.Area() {
        FaultStays(file, domains, target, subsetSpecified, k + 1, LeadingIds(domains, |file|));
        return WrongSize;
      }
      forall i | 0 <= i < |msg.values| { data[i] := msg.values[i]; }
      assert data[..] == msg.values;
      assert dest[..] == before;
      var ok := DecodeMessage(dest, data, target, domain, subsetSpecified);
      if !ok {
        FaultStays(file, domains, target, subsetSpecified, k + 1, LeadingIds(domains, |file|));
        return Overrun;
      }
      messageIndex, k := messageIndex + 1, k + 1;
    }
    return Fine;
  }

  // ---------- the conversion ----------

  datatype Outcome = Done(domain: Box, cells: seq<real>) | InvalidParameter | ConversionError | BufferOverrun

  /** What the caller supplies: the parsed message domains, in the order of the hash map, and the subset (or no axes). */
  predicate Sensible(domains: map<int, Box>, order: seq<Box>, subset: Box) {
    && order != [] && AllValid(order) && Valid(subset)
    && (forall j :: j in domains ==> domains[j] in order)
  }

  lemma SensibleParts(domains: map<int, Box>, order: seq<Box>, subset: Box)
    requires Sensible(domains, order, subset)
    ensures order != [] && AllValid(order) && Valid(subset)
  {
  }

  lemma MessageDecodable(domains: map<int, Box>, order: seq<Box>, subset: Box, box: Box, j: int)
    requires Sensible(domains, order, subset) && Acceptable(order) && j in domains
    requires LeastBox(order, box) && |box| == |order[0]| && PlaneOf(box) == PlaneOf(order[0]) && Valid(box)
    requires subset != [] ==> |subset| == |box|
    ensures Decodable(if subset == [] then box else subset, domains[j], subset != [])
    ensures |domains[j]| == |box| && PlaneOf(domains[j]) == PlaneOf(box)
  {
    var i :| 0 <= i < |order| && order[i] == domains[j];
    assert Matches(order[i], order[0]) && Inside(order[i], box) && Valid(order[i]);
  }

  lemma IntersectsSize(a: Box, b: Box)
    requires Intersects(a, b)
    ensures |a| == |b|
  {
  }

  /** The target, and what the conversion makes of the messages. */
  ghost predicate Converted(r: Outcome, file: seq<Message>, domains: map<int, Box>, target: Box, subsetSpecified: bool) {
    && Valid(target) && AllDecodable(target, domains, subsetSpecified)
    && var k := LeadingIds(domains, |file|);
       match FirstFault(file, domains, target, subsetSpecified, k)
       case WrongSize => r == ConversionError
       case Overrun => r == BufferOverrun
       case Fine => AllReadable(file, domains, k) && r == Done(target, AfterMessages(file, domains, target, subsetSpecified, k))
  }

  /** `convertFrom` */
  method ConvertFrom(file: seq<Message>, domains: map<int, Box>, order: seq<Box>, subset: Box) returns (r: Outcome)
    requires Sensible(domains, order, subset)
    ensures !Acceptable(order) ==> r == ConversionError
    ensures Acceptable(order) ==> exists box ::
      && LeastBox(order, box) && Valid(box)
      && if subset != [] && !Intersects(subset, box) then r == InvalidParameter
         else Converted(r, file, domains, if subset == [] then box else subset, subset != [])
  {
    hide Plane.Area, CellCount, LeastBox, LeadingIds, Acceptable, Intersects, Sensible, FirstFault, AfterMessages, Decodable;
    assert order != [] && AllValid(order) && Valid(subset) by { SensibleParts(domains, order, subset); }
    var bounding := ComputeBoundingBox(order);
    if bounding.None? { return ConversionError; }
    var box := bounding.value;
    var subsetSpecified := subset != [];
    if subsetSpecified && !Intersects(subset, box) { return InvalidParameter; }
    var target := if subsetSpecified then subset else box;
    if subsetSpecified { IntersectsSize(subset, box); }
    var s := PlaneOf(box);
    forall j | j in domains
      ensures Decodable(target, domains[j], subsetSpecified) && |domains[j]| >= 2 && PlaneOf(domains[j]) == s
    {
      MessageDecodable(domains, order, subset, box, j);
    }
    var dest := new real[CellCount(target)](_ => 0.0);
    var v := DecodeMessages(file, domains, target, s, subsetSpecified, dest);
    match v
    case WrongSize => return ConversionError;
    case Overrun => return BufferOverrun;
    case Fine => return Done(target, dest[..]);
  }

  // ---------- which messages are lost ----------

  /** Every specified message of the file is decoded exactly when no id is missing below a specified one. */
  lemma NoneLostIffNoGap(domains: map<int, Box>, n: nat)
    ensures (forall j :: 1 <= j <= n && j in domains ==> j <= LeadingIds(domains, n)) <==>
            (forall i, j :: 1 <= i <= j <= n && j in domains ==> i in domains)
  {
    hide LeadingIds;
    var k := LeadingIds(domains, n);
    if j :| k < j <= n && j in domains {
      assert k + 1 !in domains;
    }
  }

  /** Only message 2 is specified, and it is not decoded. */
  lemma LostMessageExample(b: Box)
    ensures LeadingIds(map[2 := b], 2) == 0
  {
    assert LeadingIds(map[2 := b], 1) == 0;
  }

  /** Where message domains do not overlap, a cell holds the value of the only message that has it. */
  lemma {:induction false} OnlyMessage(file: seq<Message>, domains: map<int, Box>, k: nat, p: Point, j: int)
    requires k <= |file| && (forall i :: 1 <= i <= k ==> i in domains) && AllReadable(file, domains, k)
    requires 1 <= j <= k && Covers(domains[j], p)
    requires forall i :: 1 <= i <= k && i != j ==> !Covers(domains[i], p)
    ensures Readable(file, domains, j) && ValueAt(file, domains, k, p) == MessageValue(file[j - 1].values, domains[j], p)
  {
    if k > j { OnlyMessage(file, domains, k - 1, p, j); }
  }
}

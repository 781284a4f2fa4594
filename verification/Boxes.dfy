/**
 Boxes (`r_Minterval`), their points, and the row-major numbering of their cells.

 `Offset` and `PointAt` are the mathematical numbering; the methods `CellOffset` and `CellPoint`
 are the loops of raslib, proved to compute it.
 */
module Boxes {
  import opened Prelude

  datatype Interval = Interval(lo: int, hi: int) {
    function Extent(): int { hi - lo + 1 }
    predicate Has(x: int) { lo <= x <= hi }
  }

  type Box = seq<Interval>
  type Point = seq<int>

  /** Every axis is non-empty, which `r_Sinterval` enforces on construction. */
  predicate Valid(b: Box) {
    forall i :: 0 <= i < |b| ==> b[i].lo <= b[i].hi
  }

  predicate Covers(b: Box, p: Point) {
    |p| == |b| && forall i :: 0 <= i < |b| ==> b[i].Has(p[i])
  }

  /** `inner` lies inside `outer`, axis by axis. */
  predicate Inside(inner: Box, outer: Box) {
    |inner| == |outer| &&
    forall i :: 0 <= i < |inner| ==> outer[i].lo <= inner[i].lo && inner[i].hi <= outer[i].hi
  }

  /** Some axis separates the two boxes. */
  predicate Disjoint(a: Box, b: Box) {
    |a| == |b| &&
    exists i :: 0 <= i < |a| && (a[i].hi < b[i].lo || b[i].hi < a[i].lo)
  }

  function CellCount(b: Box): (n: nat)
    requires Valid(b)
    ensures n >= 1
  {
    if b == [] then 1 else
      var rest := CellCount(b[1..]);
      MulAtLeast(b[0].Extent(), 1, rest);
      b[0].Extent() * rest
  }

  /** Row-major number of a point: the last axis varies fastest. */
  function Offset(b: Box, p: Point): (n: nat)
    requires Valid(b) && Covers(b, p)
  {
    if b == [] then 0 else
      MulAtLeast(p[0] - b[0].lo, 0, CellCount(b[1..]));
      (p[0] - b[0].lo) * CellCount(b[1..]) + Offset(b[1..], p[1..])
  }

  /** The point that carries a row-major number. */
  function PointAt(b: Box, n: nat): (p: Point)
    requires Valid(b)
    ensures |p| == |b|
  {
    if b == [] then [] else
      var rest := CellCount(b[1..]);
      DivBounds(n, rest);
      [b[0].lo + n / rest] + PointAt(b[1..], n % rest)
  }

  // ---------- arithmetic ----------

  lemma MulAtLeast(x: int, low: nat, y: int)
    requires x >= low && y >= 1
    ensures x * y >= low * y && x * y >= low
  {
    assert (x - low) * y >= 0;
    assert x * y == (x - low) * y + low * y;
    assert low * y == low * (y - 1) + low;
  }

  lemma MulZero(c: int)
    ensures 0 * c == 0 && c * 0 == 0
  {
  }

  lemma MulMono(x: int, y: int, c: int)
    requires x <= y && c >= 0
    ensures x * c <= y * c
  {
    assert (y - x) * c >= 0;
    assert y * c == x * c + (y - x) * c;
  }

  lemma DivBounds(n: nat, c: int)
    requires c >= 1
    ensures n == (n / c) * c + n % c && 0 <= n % c < c && n / c >= 0
  {
  }

  /** A quotient and remainder are determined by their defining equation. */
  lemma DivUnique(n: int, c: int, q: int, r: int)
    requires c >= 1 && 0 <= r < c && n == q * c + r
    ensures n / c == q && n % c == r
  {
    var q', r' := n / c, n % c;
    assert n == q' * c + r' && 0 <= r' < c;
    assert (q - q') * c == r' - r by { assert (q - q') * c == q * c - q' * c; }
    if q > q' {
      MulMono(1, q - q', c);
      assert false;
    } else if q < q' {
      MulMono(q - q', -1, c);
      assert false;
    }
  }

  /** x < y and r < c bound the pair number x * c + r below y * c. */
  lemma PairBound(x: int, r: int, y: int, c: int)
    requires x < y && 0 <= r < c
    ensures x * c + r < y * c
  {
    MulMono(x + 1, y, c);
    assert (x + 1) * c == x * c + c;
  }

  lemma QuotientBound(n: nat, e: int, c: int)
    requires c >= 1 && n < e * c
    ensures n / c < e
  {
    DivBounds(n, c);
    if n / c >= e { MulMono(e, n / c, c); assert false; }
  }

  lemma Distribute(x: int, a: int, o: int, e: int)
    ensures (x * a + o) * e == x * (a * e) + o * e
  {
    assert (x * a) * e == x * (a * e);
  }

  // ---------- the numbering is a bijection ----------

  lemma {:induction false} OffsetBound(b: Box, p: Point)
    requires Valid(b) && Covers(b, p)
    ensures Offset(b, p) < CellCount(b)
  {
    if b != [] {
      OffsetBound(b[1..], p[1..]);
      PairBound(p[0] - b[0].lo, Offset(b[1..], p[1..]), b[0].Extent(), CellCount(b[1..]));
    }
  }

  lemma {:induction false} PointAtCovered(b: Box, n: nat)
    requires Valid(b) && n < CellCount(b)
    ensures Covers(b, PointAt(b, n))
  {
    if b != [] {
      var rest := CellCount(b[1..]);
      DivBounds(n, rest);
      QuotientBound(n, b[0].Extent(), rest);
      PointAtCovered(b[1..], n % rest);
      var p := PointAt(b, n);
      assert p[1..] == PointAt(b[1..], n % rest);
      forall i | 0 <= i < |b| ensures b[i].Has(p[i]) {
        if i > 0 { assert b[i] == b[1..][i - 1] && p[i] == p[1..][i - 1]; }
      }
    }
  }

  lemma {:induction false} OffsetOfPointAt(b: Box, n: nat)
    requires Valid(b) && n < CellCount(b)
    ensures Covers(b, PointAt(b, n)) && Offset(b, PointAt(b, n)) == n
  {
    PointAtCovered(b, n);
    if b != [] {
      var rest := CellCount(b[1..]);
      DivBounds(n, rest);
      OffsetOfPointAt(b[1..], n % rest);
      assert PointAt(b, n)[1..] == PointAt(b[1..], n % rest);
    }
  }

  lemma {:induction false} PointAtOffset(b: Box, p: Point)
    requires Valid(b) && Covers(b, p)
    ensures PointAt(b, Offset(b, p)) == p
  {
    if b != [] {
      var rest := CellCount(b[1..]);
      OffsetBound(b[1..], p[1..]);
      DivUnique(Offset(b, p), rest, p[0] - b[0].lo, Offset(b[1..], p[1..]));
      PointAtOffset(b[1..], p[1..]);
    }
  }

  lemma InsideCovers(inner: Box, outer: Box, p: Point)
    requires Inside(inner, outer) && Covers(inner, p)
    ensures Covers(outer, p)
  {
  }

  lemma DisjointCovers(a: Box, b: Box, p: Point)
    requires Disjoint(a, b) && Covers(a, p)
    ensures !Covers(b, p)
  {
    var i :| 0 <= i < |a| && (a[i].hi < b[i].lo || b[i].hi < a[i].lo);
    assert a[i].Has(p[i]);
  }

  // ---------- splitting off the last axis ----------

  lemma {:induction false} CellCountSplit(b: Box)
    requires Valid(b) && b != []
    ensures CellCount(b) == CellCount(b[..|b| - 1]) * b[|b| - 1].Extent()
  {
    var init, last := b[..|b| - 1], b[|b| - 1];
    if |b| == 1 {
      assert b[1..] == [] && init == [];
    } else {
      CellCountSplit(b[1..]);
      assert b[1..][..|b| - 2] == init[1..];
      Distribute(b[0].Extent(), CellCount(init[1..]), 0, last.Extent());
    }
  }

  lemma {:induction false} OffsetSplit(b: Box, p: Point)
    requires Valid(b) && b != [] && Covers(b, p)
    ensures Covers(b[..|b| - 1], p[..|b| - 1])
    ensures Offset(b, p) ==
            Offset(b[..|b| - 1], p[..|b| - 1]) * b[|b| - 1].Extent() + p[|b| - 1] - b[|b| - 1].lo
  {
    var d := |b| - 1;
    var init, last := b[..d], b[d];
    if |b| == 1 {
      assert b[1..] == [] && init == [];
      assert CellCount(b[1..]) == 1;
    } else {
      OffsetSplit(b[1..], p[1..]);
      CellCountSplit(b[1..]);
      assert b[1..][..d - 1] == init[1..] && p[1..][..d - 1] == p[..d][1..];
      var x, e := p[0] - b[0].lo, last.Extent();
      var o := Offset(init[1..], p[..d][1..]);
      assert Offset(init, p[..d]) == x * CellCount(init[1..]) + o;
      Distribute(x, CellCount(init[1..]), o, e);
    }
  }

  /** The j-th cell of the c-th line: same leading coordinates as the line, last coordinate lo + j. */
  lemma PointAtLine(b: Box, c: nat, j: nat)
    requires Valid(b) && b != []
    requires c < CellCount(b[..|b| - 1]) && j < b[|b| - 1].Extent()
    ensures c * b[|b| - 1].Extent() + j < CellCount(b)
    ensures PointAt(b, c * b[|b| - 1].Extent() + j) == PointAt(b[..|b| - 1], c) + [b[|b| - 1].lo + j]
  {
    var d := |b| - 1;
    var init, e := b[..d], b[d].Extent();
    var q := PointAt(init, c);
    var p := q + [b[d].lo + j];
    OffsetOfPointAt(init, c);
    assert Covers(b, p) by {
      forall i | 0 <= i < |b| ensures b[i].Has(p[i]) {
        if i < d { assert init[i].Has(q[i]); }
      }
    }
    assert p[..d] == q;
    OffsetSplit(b, p);
    OffsetBound(b, p);
    PointAtOffset(b, p);
    MulAtLeast(c, 0, e);
  }

  // ---------- the loops of raslib ----------

  const WORD := 0x1_0000_0000

  lemma CountSuffix(b: Box, i: nat)
    requires Valid(b) && i < |b|
    ensures CellCount(b[i..]) == b[i].Extent() * CellCount(b[i + 1..])
  {
    assert b[i..][0] == b[i] && b[i..][1..] == b[i + 1..];
  }

  /** Offsets of the leading axes, extended by one axis. */
  lemma OffsetPrefix(b: Box, p: Point, i: nat)
    requires Valid(b) && Covers(b, p) && i < |b|
    ensures Covers(b[..i], p[..i]) && Covers(b[..i + 1], p[..i + 1])
    ensures Offset(b[..i + 1], p[..i + 1]) == Offset(b[..i], p[..i]) * b[i].Extent() + p[i] - b[i].lo
  {
    var b', p' := b[..i + 1], p[..i + 1];
    assert b'[..i] == b[..i] && p'[..i] == p[..i];
    OffsetSplit(b', p');
  }

  /**
   `r_Minterval::cell_offset`: a Horner loop over the axes that rejects a point of another
   dimension or outside the box.
   */
  method CellOffset(b: Box, p: Point) returns (r: Option<nat>)
    requires Valid(b) && b != []
    ensures r.Some? <==> Covers(b, p)
    ensures r.Some? ==> r.value == Offset(b, p) && r.value < CellCount(b)
  {
    if |b| != |p| { return None; }
    var offset: int := 0;
    var i := 0;
    while i < |b| - 1
      invariant 0 <= i < |b|
      invariant forall k :: 0 <= k < i ==> b[k].Has(p[k])
      invariant Covers(b[..i], p[..i]) && offset == Offset(b[..i], p[..i]) * b[i].Extent()
    {
      if p[i] < b[i].lo || p[i] > b[i].hi { return None; }
      OffsetPrefix(b[..i + 1], p[..i + 1], i);
      assert b[..i + 1][..i] == b[..i] && p[..i + 1][..i] == p[..i];
      assert b[..i + 1][..i + 1] == b[..i + 1] && p[..i + 1][..i + 1] == p[..i + 1];
      offset := (offset + (p[i] - b[i].lo)) * b[i + 1].Extent();
      i := i + 1;
    }
    if p[i] < b[i].lo || p[i] > b[i].hi { return None; }
    assert Covers(b, p);
    OffsetSplit(b, p);
    OffsetBound(b, p);
    offset := offset + (p[i] - b[i].lo);
    return Some(offset);
  }

  /** What `r_Minterval::cell_point` can do: refuse the offset, divide by zero, or give a point. */
  datatype PointResult = NoCell | DividedByZero | At(point: Point)

  /**
   The digits of an offset, axis by axis, from a `factor` that should be the number of cells of the box:
   each step divides it by the extent of the axis, and the offset by it.
   */
  function Digits(b: Box, factor: nat, left: nat): PointResult
    requires Valid(b)
  {
    if b == [] then At([])
    else
      var f := factor / b[0].Extent();
      if f == 0 then DividedByZero
      else
        DivBounds(left, f);
        match Digits(b[1..], f, left % f)
        case At(p) => At([b[0].lo + (left - left % f) / f] + p)
        case other => other
  }

  /** From the right factor the digits are those of the row-major number. */
  lemma {:induction false} DigitsRight(b: Box, left: nat)
    requires Valid(b) && left < CellCount(b)
    ensures Digits(b, CellCount(b), left) == At(PointAt(b, left))
  {
    if b != [] {
      var next := CellCount(b[1..]);
      assert b[0].Extent() * next == next * b[0].Extent();
      DivUnique(CellCount(b), b[0].Extent(), next, 0);
      DivBounds(left, next);
      DivUnique(left - left % next, next, left / next, 0);
      DigitsRight(b[1..], left % next);
    }
  }

  /** A factor that is too small comes down to zero before the last axis is through, whatever the offset. */
  lemma {:induction false} DigitsShort(b: Box, factor: nat, left: nat)
    requires Valid(b) && factor < CellCount(b) && b != []
    ensures Digits(b, factor, left) == DividedByZero
  {
    var e, next := b[0].Extent(), CellCount(b[1..]);
    assert e * next == next * e;
    QuotientBound(factor, next, e);
    DivBounds(factor, e);
    if factor / e > 0 {
      DivBounds(left, factor / e);
      DigitsShort(b[1..], factor / e, left % (factor / e));
    }
  }

  /** `cell_point`; its product of the extents is a 32-bit unsigned integer. */
  function CodedPoint(b: Box, offset: nat): PointResult
    requires Valid(b)
  {
    if offset >= CellCount(b) then NoCell else Digits(b, CellCount(b) % WORD, offset)
  }

  /** Every offset of a box is decoded rightly if the box has fewer than 2^32 cells; if not, none is decoded at all. */
  lemma CodedPointIff(b: Box, offset: nat)
    requires Valid(b) && offset < CellCount(b)
    ensures CellCount(b) < WORD ==> CodedPoint(b, offset) == At(PointAt(b, offset))
    ensures CellCount(b) >= WORD ==> CodedPoint(b, offset) == DividedByZero
  {
    hide Digits, CellCount;
    if CellCount(b) < WORD {
      DigitsRight(b, offset);
    } else {
      NoAxes(b);
      assert b[..0] == [];
      DigitsShort(b, CellCount(b) % WORD, offset);
    }
  }

  /** An axis of 2^32 positions: not even its first cell is decoded. */
  lemma CodedPointExample()
    ensures var b := [Interval(0, WORD - 1)];
            CellCount(b) == WORD && CodedPoint(b, 0) == DividedByZero && Covers(b, PointAt(b, 0))
  {
    var b := [Interval(0, WORD - 1)];
    assert CellCount(b[1..]) == 1;
    CodedPointIff(b, 0);
    PointAtCovered(b, 0);
  }

  lemma NextFactor(b: Box, i: nat)
    requires Valid(b) && i < |b|
    ensures CellCount(b[..i]) % WORD * b[i].Extent() % WORD == CellCount(b[..i + 1]) % WORD
  {
    CellCountSplit(b[..i + 1]);
    assert b[..i + 1][..i] == b[..i];
    WrappedProduct(CellCount(b[..i]), b[i].Extent());
  }

  lemma WrappedProduct(x: nat, e: nat)
    ensures x % WORD * e % WORD == x * e % WORD
  {
    var q, r := x / WORD, x % WORD;
    DivBounds(x, WORD);
    Distribute(q, WORD, 0, e);
    assert x * e == q * e * WORD + r * e by { assert (q * WORD + r) * e == q * WORD * e + r * e; }
    MulMono(0, r, e);
    DivBounds(r * e, WORD);
    DivUnique(x * e, WORD, q * e + r * e / WORD, r * e % WORD);
  }

  /** `r_Minterval::cell_point`: two loops over the axes, one for the product of the extents and one for the digits. */
  method CellPoint(b: Box, offset: nat) returns (r: PointResult)
    requires Valid(b)
    ensures r == CodedPoint(b, offset)
  {
    hide CellCount, Digits, Prefixed;
    if offset >= CellCount(b) { return NoCell; }
    var factor := 1;
    NoAxes(b);
    for i := 0 to |b|
      invariant factor == CellCount(b[..i]) % WORD
    {
      NextFactor(b, i);
      factor := factor * b[i].Extent() % WORD;
    }
    assert b[..|b|] == b && b[0..] == b;
    var pt: Point := [];
    var left: nat := offset;
    PrefixedEnds(b, factor, left, pt);
    for i := 0 to |b|
      invariant |pt| == i && factor >= 0
      invariant Prefixed(pt, Digits(b[i..], factor, left)) == CodedPoint(b, offset)
    {
      PeelDigit(b, i, factor, left, pt);
      factor := factor / b[i].Extent();
      if factor == 0 { return DividedByZero; }
      pt := pt + [b[i].lo + (left - left % factor) / factor];
      left := left % factor;
    }
    PrefixedEnds(b, factor, left, pt);
    return At(pt);
  }

  lemma PrefixedEnds(b: Box, factor: nat, left: nat, pt: Point)
    requires Valid(b)
    ensures Prefixed([], Digits(b, factor, left)) == Digits(b, factor, left)
    ensures Prefixed(pt, Digits(b[|b|..], factor, left)) == At(pt)
  {
    hide Digits;
    assert b[|b|..] == [] && pt + [] == pt;
    NoDigits(factor, left);
    if Digits(b, factor, left).At? { assert [] + Digits(b, factor, left).point == Digits(b, factor, left).point; }
  }

  lemma NoDigits(factor: nat, left: nat)
    ensures Digits([], factor, left) == At([])
  {
  }

  lemma PeelDigit(b: Box, i: nat, factor: nat, left: nat, pt: Point)
    requires Valid(b) && i < |b|
    ensures b[i].Extent() > 0
    ensures var f := factor / b[i].Extent();
            && f >= 0 && (f > 0 ==> left % f >= 0)
            && Prefixed(pt, Digits(b[i..], factor, left)) ==
               if f == 0 then DividedByZero
               else Prefixed(pt + [b[i].lo + (left - left % f) / f], Digits(b[i + 1..], f, left % f))
  {
    var f := factor / b[i].Extent();
    DivBounds(factor, b[i].Extent());
    assert b[i..][0] == b[i] && b[i..][1..] == b[i + 1..];
    if f > 0 {
      DivBounds(left, f);
      var d, r := b[i].lo + (left - left % f) / f, Digits(b[i + 1..], f, left % f);
      if r.At? { assert pt + ([d] + r.point) == pt + [d] + r.point; }
    }
  }

  /** A result behind digits already found. */
  function Prefixed(pt: Point, r: PointResult): PointResult {
    match r
    case At(p) => At(pt + p)
    case other => other
  }

  lemma NoAxes(b: Box)
    ensures CellCount(b[..0]) == 1
  {
  }
}

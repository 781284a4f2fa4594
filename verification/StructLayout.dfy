/** Where the elements of a struct type lie, told apart from how the code computes it. */
module StructLayout {
  import opened Prelude
  import opened Boxes
  import opened CondenseStruct

  /** The first position from `low` on that `a` divides. */
  predicate FirstMultiple(x: nat, low: nat, a: nat) { a >= 1 && x % a == 0 && low <= x < low + a }

  lemma FirstMultipleUnique(x: nat, y: nat, low: nat, a: nat)
    requires FirstMultiple(x, low, a) && FirstMultiple(y, low, a)
    ensures x == y
  {
    var p, q := x / a, y / a;
    assert x == p * a && y == q * a;
    assert (p + 1) * a == x + a && (q + 1) * a == y + a;
    if p < q { MulMono(p + 1, q, a); }
    if q < p { MulMono(q + 1, p, a); }
  }

  /** The boundaries an atomic type lies on: of four bytes from that size on, of two for two bytes, else any. */
  predicate LeafBoundary(bytes: nat, a: nat) {
    (bytes >= 4 && a == 4) || (bytes == 2 && a == 2) || (bytes < 4 && bytes != 2 && a == 1)
  }

  /** Those of a struct: the largest of its elements behind the first. */
  predicate Boundary(t: CellType, a: nat)
    decreases t, 0
  {
    match t
    case Leaf(l) => LeafBoundary(l.bytes, a)
    case Struct(es) =>
      && (forall i :: 1 <= i < |es| ==> BoundaryUpTo(es[i], a))
      && (a == 1 || exists i :: 1 <= i < |es| && Boundary(es[i], a))
  }

  predicate BoundaryUpTo(t: CellType, a: nat)
    decreases t, 1
  {
    exists b :: 1 <= b <= a && Boundary(t, b)
  }

  lemma {:induction false} ElementBoundary(t: CellType)
    requires WellFormed(t)
    ensures Boundary(t, ElementAlignment(t))
    decreases t, 1
  {
    if t.Struct? {
      StructBoundary(t.elems, |t.elems|);
      assert t.elems[..|t.elems|] == t.elems;
    }
  }

  lemma {:induction false} StructBoundary(es: seq<CellType>, n: nat)
    requires WellFormed(Struct(es)) && n <= |es|
    ensures var a := Alignment(es[..n]);
            && (forall i :: 1 <= i < n ==> BoundaryUpTo(es[i], a))
            && (a == 1 || exists i :: 1 <= i < n && Boundary(es[i], a))
    decreases es, 0, n
  {
    if n > 1 {
      StructBoundary(es, n - 1);
      ElementBoundary(es[n - 1]);
      assert es[..n][..n - 1] == es[..n - 1];
      var before, a := Alignment(es[..n - 1]), Alignment(es[..n]);
      hide Alignment, ElementAlignment, Boundary;
      assert BoundaryUpTo(es[n - 1], a);
      forall i | 1 <= i < n - 1 ensures BoundaryUpTo(es[i], a) {
        assert BoundaryUpTo(es[i], before);
        var b :| 1 <= b <= before && Boundary(es[i], b);
      }
    }
  }

  lemma {:induction false} BoundaryUnique(t: CellType, a: nat, b: nat)
    requires a >= 1 && b >= 1 && Boundary(t, a) && Boundary(t, b)
    ensures a == b
  {
    if t.Struct? {
      SmallerBoundary(t.elems, a, b);
      SmallerBoundary(t.elems, b, a);
    }
  }

  lemma {:induction false} SmallerBoundary(es: seq<CellType>, a: nat, b: nat)
    requires b >= 1 && Boundary(Struct(es), a) && Boundary(Struct(es), b)
    ensures b <= a || b == 1
  {
    if b > 1 {
      var i :| 1 <= i < |es| && Boundary(es[i], b);
      assert BoundaryUpTo(es[i], a);
      var c :| 1 <= c <= a && Boundary(es[i], c);
      BoundaryUnique(es[i], b, c);
    }
  }

  /** Behind the first element, every element lies on the first of its boundaries behind the element before it. */
  lemma Placed(es: seq<CellType>, i: nat)
    requires WellFormed(Struct(es)) && 1 <= i < |es|
    ensures ElementOffset(es, 0) == 0
    ensures exists a :: Boundary(es[i], a) && FirstMultiple(ElementOffset(es, i), ElementOffset(es, i - 1) + Size(es[i - 1]), a)
  {
    ElementBoundary(es[i]);
    assert Boundary(es[i], ElementAlignment(es[i]));
  }

  /** In particular an atomic element, by its size. */
  lemma LeafPlaced(es: seq<CellType>, i: nat)
    requires WellFormed(Struct(es)) && 1 <= i < |es| && es[i].Leaf?
    ensures var x, end := ElementOffset(es, i), ElementOffset(es, i - 1) + Size(es[i - 1]);
            && end <= x
            && (es[i].leaf.bytes >= 4 ==> x % 4 == 0 && x < end + 4)
            && (es[i].leaf.bytes == 2 ==> x % 2 == 0 && x < end + 2)
            && (es[i].leaf.bytes == 1 ==> x == end)
  {
    hide ElementOffset, Size;
    Placed(es, i);
  }

  /** The size reaches from the last element's end to the first boundary of four, two or one bytes. */
  lemma SizePlaced(es: seq<CellType>)
    requires WellFormed(Struct(es))
    ensures var four := exists i :: 0 <= i < |es| && (es[i].Struct? || Size(es[i]) == 4);
            var two := exists i :: 0 <= i < |es| && Size(es[i]) == 2;
            FirstMultiple(Size(Struct(es)), ElementOffset(es, |es| - 1) + Size(es[|es| - 1]), if four then 4 else if two then 2 else 1)
  {
    SizeIs(es);
    SizeBoundary(es);
    hide Size, ElementOffset, SizeAlignment, WellFormed;
  }

  lemma SizeIs(es: seq<CellType>)
    requires WellFormed(Struct(es))
    ensures Size(Struct(es)) == RoundUp(ElementOffset(es, |es| - 1) + Size(es[|es| - 1]), SizeAlignment(es))
  {
    hide ElementOffset, SizeAlignment;
  }

  lemma {:induction false} SizeBoundary(es: seq<CellType>)
    requires forall i :: 0 <= i < |es| ==> WellFormed(es[i])
    ensures var four := exists i :: 0 <= i < |es| && (es[i].Struct? || Size(es[i]) == 4);
            var two := exists i :: 0 <= i < |es| && Size(es[i]) == 2;
            SizeAlignment(es) == if four then 4 else if two then 2 else 1
  {
    if es != [] {
      hide Size;
      SizeBoundary(es[..|es| - 1]);
    }
  }

  /** A char and a long: the long at offset 4, eight bytes in all. */
  lemma CharLongExample()
    ensures var es := [Leaf(LeafType(1, false)), Leaf(LeafType(4, true))];
            WellFormed(Struct(es)) && ElementOffset(es, 1) == 4 && Size(Struct(es)) == 8
  {
    var es := [Leaf(LeafType(1, false)), Leaf(LeafType(4, true))];
    Placed(es, 1);
    LeafPlaced(es, 1);
    assert es[1].Leaf?;
    SizePlaced(es);
  }
}

/**
 How the client lays a received tile into the memory of its MDD.

 `Pasted` says what the memory must hold, byte by byte. `PasteLines` is the transfer code's
 line-wise copy, `PasteCells` the cell-by-cell loop it replaced; both are proved to compute `Pasted`.
 */
module TileAssembly {
  import opened Boxes
  import opened Prelude

  datatype Tile = Tile(domain: Box, data: seq<byte>)

  /** The tile lies inside the MDD and carries at least its cells (compression may leave more). */
  predicate Fits(m: Box, len: nat, t: Tile) {
    && Valid(m) && Valid(t.domain) && m != [] && len >= 1
    && Inside(t.domain, m)
    && |t.data| >= CellCount(t.domain) * len
  }

  predicate AllFit(m: Box, len: nat, tiles: seq<Tile>) {
    forall i :: 0 <= i < |tiles| ==> Fits(m, len, tiles[i])
  }

  lemma CellOfByte(n: nat, len: nat, k: nat)
    requires len >= 1 && k < n * len
    ensures k / len < n && k == (k / len) * len + k % len
  {
    QuotientBound(k, n, len);
    DivBounds(k, len);
  }

  lemma ByteInTile(len: nat, t: Tile, p: Point, r: nat)
    requires Valid(t.domain) && Covers(t.domain, p) && r < len
    requires |t.data| >= CellCount(t.domain) * len
    ensures 0 <= Offset(t.domain, p) * len + r < |t.data|
  {
    OffsetBound(t.domain, p);
    PairBound(Offset(t.domain, p), r, CellCount(t.domain), len);
    MulMono(0, Offset(t.domain, p), len);
  }

  /** Byte r of the tile's cell at point p. */
  function TileByte(len: nat, t: Tile, p: Point, r: nat): byte
    requires Valid(t.domain) && Covers(t.domain, p) && r < len
    requires |t.data| >= CellCount(t.domain) * len
  {
    ByteInTile(len, t, p, r);
    t.data[Offset(t.domain, p) * len + r]
  }

  /** Byte k of the MDD once the first n cells of the tile have been laid over `base`. */
  function PartByte(base: seq<byte>, m: Box, len: nat, t: Tile, n: nat, k: nat): byte
    requires Fits(m, len, t) && |base| == CellCount(m) * len && k < |base|
  {
    CellOfByte(CellCount(m), len, k);
    var p := PointAt(m, k / len);
    if Covers(t.domain, p) && Offset(t.domain, p) < n then
      TileByte(len, t, p, k % len)
    else base[k]
  }

  /** The MDD memory with the whole tile laid over `base`: covered cells from the tile, the rest untouched. */
  function Pasted(base: seq<byte>, m: Box, len: nat, t: Tile): (r: seq<byte>)
    requires Fits(m, len, t) && |base| == CellCount(m) * len
    ensures |r| == |base|
  {
    seq(|base|, k requires 0 <= k < |base| => PartByte(base, m, len, t, CellCount(t.domain), k))
  }

  /** Cell n+j of the tile is cell o+j of the MDD. */
  ghost predicate Lands(m: Box, t: Box, n: nat, o: nat, j: nat)
    requires Valid(m) && Valid(t) && Inside(t, m)
  {
    && n + j < CellCount(t) && Covers(t, PointAt(t, n + j))
    && Covers(m, PointAt(t, n + j)) && Offset(m, PointAt(t, n + j)) == o + j
  }

  /** Cells n .. n+w-1 of the tile land on w consecutive cells of the MDD, starting at cell o. */
  ghost predicate Run(m: Box, t: Box, n: nat, w: nat, o: nat)
    requires Valid(m) && Valid(t) && Inside(t, m)
  {
    forall j: nat :: j < w ==> Lands(m, t, n, o, j)
  }

  lemma CellRun(m: Box, t: Box, n: nat)
    requires Valid(m) && Valid(t) && Inside(t, m) && n < CellCount(t)
    ensures Covers(m, PointAt(t, n)) && Run(m, t, n, 1, Offset(m, PointAt(t, n)))
  {
    PointAtCovered(t, n);
    InsideCovers(t, m, PointAt(t, n));
  }

  lemma LineCell(m: Box, t: Box, c: nat, n: nat, j: nat)
    requires Valid(m) && Valid(t) && t != [] && Inside(t, m)
    requires c < CellCount(t[..|t| - 1]) && j < t[|t| - 1].Extent() && n == c * t[|t| - 1].Extent()
    requires n < CellCount(t) && Covers(m, PointAt(t, n))
    ensures Lands(m, t, n, Offset(m, PointAt(t, n)), j)
  {
    hide Offset, CellCount, PointAt;
    var d := |t| - 1;
    PointAtLine(t, c, 0);
    PointAtLine(t, c, j);
    PointAtCovered(t, n + j);
    var start, p := PointAt(t, n), PointAt(t, n + j);
    InsideCovers(t, m, p);
    OffsetSplit(m, start);
    OffsetSplit(m, p);
    assert p[..d] == start[..d];
  }

  lemma LineRun(m: Box, t: Box, c: nat, n: nat)
    requires Valid(m) && Valid(t) && t != [] && Inside(t, m)
    requires c < CellCount(t[..|t| - 1]) && n == c * t[|t| - 1].Extent()
    ensures n < CellCount(t) && Covers(m, PointAt(t, n))
    ensures Run(m, t, n, t[|t| - 1].Extent(), Offset(m, PointAt(t, n)))
  {
    PointAtLine(t, c, 0);
    CellRun(m, t, n);
    forall j: nat | j < t[|t| - 1].Extent()
      ensures Lands(m, t, n, Offset(m, PointAt(t, n)), j)
    {
      LineCell(m, t, c, n, j);
    }
  }

  lemma CellInRun(len: nat, o: nat, w: nat, k: nat)
    requires len >= 1
    ensures o * len <= k < (o + w) * len <==> o <= k / len < o + w
  {
    DivBounds(k, len);
    if k / len < o { PairBound(k / len, k % len, o, len); }
    if k / len >= o { MulMono(o, k / len, len); }
    if k / len < o + w { PairBound(k / len, k % len, o + w, len); }
    if k / len >= o + w { MulMono(o + w, k / len, len); }
  }

  /** A byte of the MDD outside the run is unaffected by extending the run. */
  lemma OutsideRun(base: seq<byte>, m: Box, len: nat, t: Tile, n: nat, w: nat, o: nat, k: nat)
    requires Fits(m, len, t) && |base| == CellCount(m) * len && k < |base|
    requires Run(m, t.domain, n, w, o) && !(o <= k / len < o + w)
    ensures PartByte(base, m, len, t, n + w, k) == PartByte(base, m, len, t, n, k)
  {
    hide Offset, CellCount, PointAt;
    CellOfByte(CellCount(m), len, k);
    var p := PointAt(m, k / len);
    OffsetOfPointAt(m, k / len);
    if Covers(t.domain, p) && n <= Offset(t.domain, p) < n + w {
      PointAtOffset(t.domain, p);
      assert Lands(m, t.domain, n, o, Offset(t.domain, p) - n);
      assert false;
    }
  }

  /** A byte inside the run reads the tile, at the same distance from the start of the run. */
  lemma InsideRun(base: seq<byte>, m: Box, len: nat, t: Tile, n: nat, w: nat, o: nat, k: nat)
    requires Fits(m, len, t) && |base| == CellCount(m) * len && k < |base|
    requires Run(m, t.domain, n, w, o) && o <= k / len < o + w
    ensures 0 <= n * len + (k - o * len) < |t.data|
    ensures PartByte(base, m, len, t, n + w, k) == t.data[n * len + (k - o * len)]
  {
    hide Offset, CellCount, PointAt;
    CellOfByte(CellCount(m), len, k);
    var j: nat := k / len - o;
    assert Lands(m, t.domain, n, o, j);
    var p := PointAt(t.domain, n + j);
    PointAtOffset(m, p);
    OffsetOfPointAt(t.domain, n + j);
    ByteInTile(len, t, p, k % len);
    RunIndex(len, n, o, j, k);
  }

  lemma RunIndex(len: nat, n: nat, o: nat, j: nat, k: nat)
    requires len >= 1 && k / len == o + j
    ensures (n + j) * len + k % len == n * len + (k - o * len)
  {
    DivBounds(k, len);
    assert (n + j) * len == n * len + j * len;
    assert (o + j) * len == o * len + j * len;
  }

  lemma RunBounds(m: Box, len: nat, t: Tile, n: nat, w: nat, o: nat)
    requires Fits(m, len, t) && w >= 1 && Run(m, t.domain, n, w, o)
    ensures 0 <= o * len && o * len + w * len <= CellCount(m) * len
    ensures 0 <= n * len && n * len + w * len <= |t.data|
  {
    hide Offset, CellCount, PointAt;
    assert Lands(m, t.domain, n, o, w - 1);
    OffsetBound(m, PointAt(t.domain, n + (w - 1)));
    assert (o + w) * len == o * len + w * len;
    assert (n + w) * len == n * len + w * len;
    MulMono(o + w, CellCount(m), len);
    MulMono(n + w, CellCount(t.domain), len);
    MulMono(0, o, len);
    MulMono(0, n, len);
  }

  /** Copying one run of w cells extends the pasted part of the MDD by those cells. */
  method CopyRun(mdd: array<byte>, ghost base: seq<byte>, m: Box, len: nat, src: array<byte>, ghost t: Tile,
                 n: nat, w: nat, o: nat)
    requires mdd != src
    requires Fits(m, len, t) && t.data == src[..] && mdd.Length == |base| == CellCount(m) * len
    requires w >= 1 && Run(m, t.domain, n, w, o)
    requires forall k: nat | k < mdd.Length :: mdd[k] == PartByte(base, m, len, t, n, k)
    modifies mdd
    ensures forall k: nat | k < mdd.Length :: mdd[k] == PartByte(base, m, len, t, n + w, k)
  {
    hide Offset, CellCount, PointAt, PartByte, Run;
    var from, to, count := n * len, o * len, w * len;
    RunBounds(m, len, t, n, w, o);
    forall k: nat | k < mdd.Length
      ensures to <= k < to + count ==>
                from + (k - to) < src.Length && PartByte(base, m, len, t, n + w, k) == src[from + (k - to)]
      ensures !(to <= k < to + count) ==> mdd[k] == PartByte(base, m, len, t, n + w, k)
    {
      assert (o + w) * len == o * len + w * len;
      CellInRun(len, o, w, k);
      if to <= k < to + count { InsideRun(base, m, len, t, n, w, o, k); }
      else { OutsideRun(base, m, len, t, n, w, o, k); }
    }
    forall k: nat | to <= k < to + count {
      mdd[k] := src[from + (k - to)];
    }
  }

  lemma StartOfPaste(base: seq<byte>, m: Box, len: nat, t: Tile)
    requires Fits(m, len, t) && |base| == CellCount(m) * len
    ensures forall k: nat | k < |base| :: PartByte(base, m, len, t, 0, k) == base[k]
  {
  }

  /**
   The optimised copy of `getMDDCore`: one memcpy per line of the tile's last axis. It divides by zero in
   `cell_point`, before it copies anything, if the tile has 2^32 cells or more.
   */
  method PasteLines(mdd: array<byte>, m: Box, len: nat, src: array<byte>, t: Box) returns (ok: bool)
    requires mdd != src
    requires Fits(m, len, Tile(t, src[..])) && mdd.Length == CellCount(m) * len
    modifies mdd
    ensures ok <==> CellCount(t) < WORD
    ensures mdd[..] == if ok then Pasted(old(mdd[..]), m, len, Tile(t, src[..])) else old(mdd[..])
  {
    hide CellCount, PartByte, CodedPoint, PointAt;
    ghost var base, tile := mdd[..], Tile(t, src[..]);
    var blockCells := t[|t| - 1].hi - t[|t| - 1].lo + 1;
    var total := CellCount(t);
    var blockNo := total / blockCells;
    CellCountSplit(t);
    DivUnique(total, blockCells, CellCount(t[..|t| - 1]), 0);
    StartOfPaste(base, m, len, tile);
    var n := 0;
    for c := 0 to blockNo
      invariant n == c * blockCells && (c > 0 ==> total < WORD)
      invariant forall k: nat | k < mdd.Length :: mdd[k] == PartByte(base, m, len, tile, n, k)
    {
      LineRun(m, t, c, n);
      CodedPointIff(t, n);
      var p := CellPoint(t, n);
      if p.DividedByZero? { assert c == 0; return false; }
      var o := CellOffset(m, p.point);
      CopyRun(mdd, base, m, len, src, tile, n, blockCells, o.value);
      assert (c + 1) * blockCells == c * blockCells + blockCells;
      n := n + blockCells;
    }
    PasteDone(base, mdd[..], m, len, tile);
    return true;
  }

  lemma PasteDone(base: seq<byte>, after: seq<byte>, m: Box, len: nat, t: Tile)
    requires Fits(m, len, t) && |after| == |base| == CellCount(m) * len
    requires forall k: nat | k < |base| :: after[k] == PartByte(base, m, len, t, CellCount(t.domain), k)
    ensures after == Pasted(base, m, len, t)
  {
  }

  /** The loop the copy replaced: one assignment per cell of the tile. */
  method PasteCells(mdd: array<byte>, m: Box, len: nat, src: array<byte>, t: Box) returns (ok: bool)
    requires mdd != src
    requires Fits(m, len, Tile(t, src[..])) && mdd.Length == CellCount(m) * len
    modifies mdd
    ensures ok <==> CellCount(t) < WORD
    ensures mdd[..] == if ok then Pasted(old(mdd[..]), m, len, Tile(t, src[..])) else old(mdd[..])
  {
    hide CellCount, PartByte, CodedPoint, PointAt, Offset;
    ghost var base, tile := mdd[..], Tile(t, src[..]);
    StartOfPaste(base, m, len, tile);
    var total := CellCount(t);
    for i := 0 to total
      invariant i > 0 ==> total < WORD
      invariant forall k: nat | k < mdd.Length :: mdd[k] == PartByte(base, m, len, tile, i, k)
    {
      CellRun(m, t, i);
      CodedPointIff(t, i);
      var p := CellPoint(t, i);
      if p.DividedByZero? { assert i == 0; return false; }
      var o := CellOffset(m, p.point);
      CopyRun(mdd, base, m, len, src, tile, i, 1, o.value);
    }
    PasteDone(base, mdd[..], m, len, tile);
    return true;
  }

  // ---------- whole MDDs ----------

  function Zeros(n: nat): (r: seq<byte>)
    ensures |r| == n
  {
    seq(n, _ => 0)
  }

  /** All tiles laid over zeroed memory, in order of arrival. */
  function Assemble(m: Box, len: nat, tiles: seq<Tile>): (r: seq<byte>)
    requires Valid(m) && AllFit(m, len, tiles)
    ensures |r| == CellCount(m) * len
  {
    if tiles == [] then MulMono(0, CellCount(m), len); Zeros(CellCount(m) * len)
    else Pasted(Assemble(m, len, tiles[..|tiles| - 1]), m, len, tiles[|tiles| - 1])
  }

  ghost predicate PairwiseDisjoint(tiles: seq<Tile>) {
    forall i, j :: 0 <= i < j < |tiles| ==> Disjoint(tiles[i].domain, tiles[j].domain)
  }

  /** Tile i owns the cell of byte k: no later tile covers it. */
  ghost predicate LastCover(tiles: seq<Tile>, i: nat, p: Point) {
    && i < |tiles| && Covers(tiles[i].domain, p)
    && forall j :: i < j < |tiles| ==> !Covers(tiles[j].domain, p)
  }

  lemma {:induction false} AssembledByte(m: Box, len: nat, tiles: seq<Tile>, i: nat, k: nat)
    requires Valid(m) && AllFit(m, len, tiles) && len >= 1 && k < CellCount(m) * len
    requires LastCover(tiles, i, PointAt(m, k / len))
    ensures Assemble(m, len, tiles)[k] == TileByte(len, tiles[i], PointAt(m, k / len), k % len)
  {
    hide Offset, CellCount, PointAt;
    var p := PointAt(m, k / len);
    OffsetBound(tiles[i].domain, p);
    if i < |tiles| - 1 {
      var init := tiles[..|tiles| - 1];
      assert LastCover(init, i, p);
      AssembledByte(m, len, init, i, k);
    }
  }

  lemma {:induction false} UncoveredIsZero(m: Box, len: nat, tiles: seq<Tile>, k: nat)
    requires Valid(m) && AllFit(m, len, tiles) && len >= 1 && k < CellCount(m) * len
    requires forall i :: 0 <= i < |tiles| ==> !Covers(tiles[i].domain, PointAt(m, k / len))
    ensures Assemble(m, len, tiles)[k] == 0
  {
    hide Offset, CellCount, PointAt;
    if tiles != [] {
      UncoveredIsZero(m, len, tiles[..|tiles| - 1], k);
    }
  }

  lemma DisjointOwner(tiles: seq<Tile>, i: nat, p: Point)
    requires PairwiseDisjoint(tiles) && i < |tiles| && Covers(tiles[i].domain, p)
    ensures LastCover(tiles, i, p)
  {
    forall j | i < j < |tiles| ensures !Covers(tiles[j].domain, p) {
      DisjointCovers(tiles[i].domain, tiles[j].domain, p);
    }
  }

  lemma SameByteInAnyOrder(m: Box, len: nat, tiles: seq<Tile>, tiles': seq<Tile>, k: nat)
    requires Valid(m) && len >= 1 && AllFit(m, len, tiles) && AllFit(m, len, tiles')
    requires PairwiseDisjoint(tiles) && PairwiseDisjoint(tiles')
    requires forall t :: t in tiles <==> t in tiles'
    requires k < CellCount(m) * len
    ensures Assemble(m, len, tiles)[k] == Assemble(m, len, tiles')[k]
  {
    hide Offset, CellCount, PointAt, Assemble;
    var p := PointAt(m, k / len);
    if i: nat :| i < |tiles| && Covers(tiles[i].domain, p) {
      assert tiles[i] in tiles';
      var j: nat :| j < |tiles'| && tiles'[j] == tiles[i];
      DisjointOwner(tiles, i, p);
      DisjointOwner(tiles', j, p);
      AssembledByte(m, len, tiles, i, k);
      AssembledByte(m, len, tiles', j, k);
    } else {
      UncoveredIsZero(m, len, tiles, k);
      forall j | 0 <= j < |tiles'| ensures !Covers(tiles'[j].domain, p) {
        assert tiles'[j] in tiles;
      }
      UncoveredIsZero(m, len, tiles', k);
    }
  }

  /** Disjoint tiles assemble to the same memory in every order of arrival. */
  lemma ArrivalOrderIrrelevant(m: Box, len: nat, tiles: seq<Tile>, tiles': seq<Tile>)
    requires Valid(m) && len >= 1 && AllFit(m, len, tiles) && AllFit(m, len, tiles')
    requires PairwiseDisjoint(tiles) && PairwiseDisjoint(tiles')
    requires multiset(tiles) == multiset(tiles')
    ensures Assemble(m, len, tiles) == Assemble(m, len, tiles')
  {
    assert forall t :: t in tiles <==> t in multiset(tiles);
    assert forall t :: t in tiles' <==> t in multiset(tiles');
    forall k: nat | k < CellCount(m) * len
      ensures Assemble(m, len, tiles)[k] == Assemble(m, len, tiles')[k]
    {
      SameByteInAnyOrder(m, len, tiles, tiles', k);
    }
  }

  lemma CutIndex(m: Box, len: nat, t: Box, k: nat)
    requires Valid(m) && Valid(t) && Inside(t, m) && len >= 1 && k < CellCount(t) * len
    ensures k / len < CellCount(t) && Covers(m, PointAt(t, k / len))
    ensures 0 <= Offset(m, PointAt(t, k / len)) * len + k % len < CellCount(m) * len
  {
    CellOfByte(CellCount(t), len, k);
    PointAtCovered(t, k / len);
    var p := PointAt(t, k / len);
    InsideCovers(t, m, p);
    OffsetBound(m, p);
    PairBound(Offset(m, p), k % len, CellCount(m), len);
    MulMono(0, Offset(m, p), len);
  }

  /** The bytes of the array `a` over `m` that belong to box `t`, in row-major order of `t`. */
  function Cut(a: seq<byte>, m: Box, len: nat, t: Box): (r: seq<byte>)
    requires Valid(m) && Valid(t) && Inside(t, m) && len >= 1 && |a| == CellCount(m) * len
    ensures |r| == CellCount(t) * len
  {
    MulMono(0, CellCount(t), len);
    seq(CellCount(t) * len, k requires 0 <= k < CellCount(t) * len =>
      CutIndex(m, len, t, k);
      a[Offset(m, PointAt(t, k / len)) * len + k % len])
  }

  lemma CutAt(a: seq<byte>, m: Box, len: nat, t: Box, c: nat, r: nat)
    requires Valid(m) && Valid(t) && Inside(t, m) && len >= 1 && |a| == CellCount(m) * len
    requires c < CellCount(t) && r < len
    ensures Covers(m, PointAt(t, c))
    ensures 0 <= c * len + r < CellCount(t) * len && 0 <= Offset(m, PointAt(t, c)) * len + r < |a|
    ensures Cut(a, m, len, t)[c * len + r] == a[Offset(m, PointAt(t, c)) * len + r]
  {
    hide Offset, CellCount, PointAt;
    PairBound(c, r, CellCount(t), len);
    MulMono(0, c, len);
    DivUnique(c * len + r, len, c, r);
    CutIndex(m, len, t, c * len + r);
  }

  /** The cut tile holds, at the place of byte k's cell, byte k of the array. */
  lemma CutByte(a: seq<byte>, m: Box, len: nat, t: Tile, k: nat)
    requires Valid(m) && Valid(t.domain) && Inside(t.domain, m) && len >= 1 && |a| == CellCount(m) * len
    requires t.data == Cut(a, m, len, t.domain)
    requires k < |a| && Covers(t.domain, PointAt(m, k / len))
    ensures TileByte(len, t, PointAt(m, k / len), k % len) == a[k]
  {
    hide Offset, CellCount, PointAt, Cut;
    CellOfByte(CellCount(m), len, k);
    var p := PointAt(m, k / len);
    OffsetOfPointAt(m, k / len);
    OffsetBound(t.domain, p);
    PointAtOffset(t.domain, p);
    CutAt(a, m, len, t.domain, Offset(t.domain, p), k % len);
  }

  /**
   Cutting an array into tiles and assembling them gives the array back, for every set of tiles that
   covers the domain, overlapping or not.
   */
  lemma CutThenAssemble(a: seq<byte>, m: Box, len: nat, tiles: seq<Tile>)
    requires Valid(m) && m != [] && len >= 1 && |a| == CellCount(m) * len
    requires forall t :: t in tiles ==>
               Valid(t.domain) && Inside(t.domain, m) && t.data == Cut(a, m, len, t.domain)
    requires forall p :: Covers(m, p) ==> exists i :: 0 <= i < |tiles| && Covers(tiles[i].domain, p)
    ensures AllFit(m, len, tiles)
    ensures Assemble(m, len, tiles) == a
  {
    hide Offset, CellCount, PointAt, Cut, Assemble;
    forall k: nat | k < |a| ensures Assemble(m, len, tiles)[k] == a[k] {
      CellOfByte(CellCount(m), len, k);
      OffsetOfPointAt(m, k / len);
      var p := PointAt(m, k / len);
      var i :| 0 <= i < |tiles| && Covers(tiles[i].domain, p);
      var j := LastCoverExists(tiles, i, p);
      AssembledByte(m, len, tiles, j, k);
      CutByte(a, m, len, tiles[j], k);
    }
  }

  lemma LastCoverExists(tiles: seq<Tile>, i: nat, p: Point) returns (j: nat)
    requires i < |tiles| && Covers(tiles[i].domain, p)
    ensures LastCover(tiles, j, p)
    decreases |tiles| - i
  {
    if i' :| i < i' < |tiles| && Covers(tiles[i'].domain, p) {
      j := LastCoverExists(tiles, i', p);
    } else {
      j := i;
    }
  }

  /** The shortcut for an MDD made of one tile: taking over the tile's memory equals copying it. */
  lemma SingleTileShortcut(m: Box, len: nat, data: seq<byte>)
    requires Fits(m, len, Tile(m, data))
    ensures Assemble(m, len, [Tile(m, data)]) == data[..CellCount(m) * len]
  {
    MulMono(0, CellCount(m), len);
    var tiles := [Tile(m, data)];
    var r := Assemble(m, len, tiles);
    forall k | 0 <= k < |r| ensures r[k] == data[k] {
      CellOfByte(CellCount(m), len, k);
      var p := PointAt(m, k / len);
      OffsetOfPointAt(m, k / len);
      assert LastCover(tiles, 0, p);
      AssembledByte(m, len, tiles, 0, k);
    }
  }
}

/**
 One x/y slice of a GRIB message and its place in the target array.

 A message numbers its values by row (x varies fastest), the target array by column (y varies fastest), so every
 slice is transposed; a subset is first packed from the message into the target.
 */
module GribPlane {
  import opened Prelude
  import opened Boxes

  datatype Plane = Plane(x: Interval, y: Interval) {
    predicate Ok() { x.lo <= x.hi && y.lo <= y.hi }
    predicate Has(px: int, py: int) { x.Has(px) && y.Has(py) }
    function W(): int { x.Extent() }
    function H(): int { y.Extent() }
    function Area(): (n: nat)
      requires Ok()
      ensures n >= 1
    {
      MulAtLeast(H(), 1, W());
      H() * W()
    }
    function ByRow(px: int, py: int): int { (py - y.lo) * W() + (px - x.lo) }
    function ByColumn(px: int, py: int): int { (px - x.lo) * H() + (py - y.lo) }
  }

  predicate Within(t: Plane, m: Plane) {
    m.x.lo <= t.x.lo && t.x.hi <= m.x.hi && m.y.lo <= t.y.lo && t.y.hi <= m.y.hi
  }


  function Meet(m: Plane, s: Plane): Plane {
    Plane(Interval(Max(m.x.lo, s.x.lo), Min(m.x.hi, s.x.hi)), Interval(Max(m.y.lo, s.y.lo), Min(m.y.hi, s.y.hi)))
  }

  lemma ByRowBound(t: Plane, px: int, py: int)
    requires t.Ok() && t.Has(px, py)
    ensures 0 <= t.ByRow(px, py) < t.Area()
  {
    MulMono(0, py - t.y.lo, t.W());
    PairBound(py - t.y.lo, px - t.x.lo, t.H(), t.W());
  }

  lemma ByColumnBound(t: Plane, px: int, py: int)
    requires t.Ok() && t.Has(px, py)
    ensures 0 <= t.ByColumn(px, py) < t.Area()
  {
    MulMono(0, px - t.x.lo, t.H());
    PairBound(px - t.x.lo, py - t.y.lo, t.W(), t.H());
    assert t.W() * t.H() == t.H() * t.W();
  }

  lemma ByRowUnique(t: Plane, px: int, py: int, qx: int, qy: int)
    requires t.Ok() && t.Has(px, py) && t.Has(qx, qy) && t.ByRow(px, py) == t.ByRow(qx, qy)
    ensures px == qx && py == qy
  {
    DivUnique(t.ByRow(px, py), t.W(), py - t.y.lo, px - t.x.lo);
    DivUnique(t.ByRow(px, py), t.W(), qy - t.y.lo, qx - t.x.lo);
  }

  lemma AreaMono(t: Plane, m: Plane)
    requires t.Ok() && m.Ok() && Within(t, m)
    ensures t.Area() <= m.Area()
  {
    MulMono(t.H(), m.H(), t.W());
    MulMono(t.W(), m.W(), m.H());
    assert t.W() * m.H() == m.H() * t.W() && m.W() * m.H() == m.H() * m.W();
  }

  // ---------- transposing and packing ----------

  lemma SourceIndex(n: nat, N: nat, M: nat)
    requires n < N * M
    ensures N > 0 && 0 <= M * (n % N) + n / N < N * M
  {
    if N == 0 { MulZero(M); }
    assert N * M == M * N;
    DivBounds(n, N);
    QuotientBound(n, M, N);
    PairBound(n % N, n / N, N, M);
    MulMono(0, n % N, M);
    assert (n % N) * M == M * (n % N);
  }

  /** What `transpose` computes: an N x M array becomes M x N. */
  function Transposed(s: seq<real>, N: nat, M: nat): (r: seq<real>)
    requires |s| == N * M
    ensures |r| == N * M
  {
    seq(N * M, n requires 0 <= n < N * M => SourceIndex(n, N, M); s[M * (n % N) + n / N])
  }

  /** Transposing moves a point from its row-wise to its column-wise number. */
  lemma TransposedAt(t: Plane, s: seq<real>, px: int, py: int)
    requires t.Ok() && t.Has(px, py) && |s| == t.Area()
    ensures 0 <= t.ByColumn(px, py) < t.Area() && 0 <= t.ByRow(px, py) < t.Area()
    ensures Transposed(s, t.H(), t.W())[t.ByColumn(px, py)] == s[t.ByRow(px, py)]
  {
    ByColumnBound(t, px, py);
    ByRowBound(t, px, py);
    var n := t.ByColumn(px, py);
    DivUnique(n, t.H(), px - t.x.lo, py - t.y.lo);
    assert t.W() * (n % t.H()) == (py - t.y.lo) * t.W();
  }

  lemma PackedIndex(m: Plane, t: Plane, k: nat)
    requires t.Ok() && m.Ok() && Within(t, m) && k < t.Area()
    ensures t.W() > 0 && t.Has(t.x.lo + k % t.W(), t.y.lo + k / t.W())
    ensures t.ByRow(t.x.lo + k % t.W(), t.y.lo + k / t.W()) == k
    ensures 0 <= m.ByRow(t.x.lo + k % t.W(), t.y.lo + k / t.W()) < m.Area()
  {
    DivBounds(k, t.W());
    QuotientBound(k, t.H(), t.W());
    ByRowBound(m, t.x.lo + k % t.W(), t.y.lo + k / t.W());
  }

  /** The part `t` of a message, line after line. */
  function Packed(values: seq<real>, m: Plane, t: Plane): (r: seq<real>)
    requires t.Ok() && m.Ok() && Within(t, m) && |values| == m.Area()
    ensures |r| == t.Area()
  {
    seq(t.Area(), k requires 0 <= k < t.Area() =>
      PackedIndex(m, t, k); values[m.ByRow(t.x.lo + k % t.W(), t.y.lo + k / t.W())])
  }

  lemma PackedAt(values: seq<real>, m: Plane, t: Plane, px: int, py: int)
    requires t.Ok() && m.Ok() && Within(t, m) && |values| == m.Area() && t.Has(px, py)
    ensures 0 <= t.ByRow(px, py) < t.Area() && 0 <= m.ByRow(px, py) < m.Area()
    ensures Packed(values, m, t)[t.ByRow(px, py)] == values[m.ByRow(px, py)]
  {
    ByRowBound(t, px, py);
    ByRowBound(m, px, py);
    DivUnique(t.ByRow(px, py), t.W(), py - t.y.lo, px - t.x.lo);
  }

  // ---------- one message into one slice ----------

  predicate Placeable(values: seq<real>, before: seq<real>, m: Plane, s: Plane) {
    m.Ok() && s.Ok() && Meet(m, s).Ok() && |values| == m.Area() && |before| == s.Area()
  }

  /** The slice in front of the final transposition. */
  function Unturned(values: seq<real>, before: seq<real>, m: Plane, s: Plane): (r: seq<real>)
    requires Placeable(values, before, m, s)
    ensures |r| == s.Area()
  {
    if m.W() == s.W() && m.H() == s.H() then values
    else
      var t := Meet(m, s);
      AreaMono(t, s);
      Packed(values, m, t) + before[t.Area()..]
  }

  /** What decoding a message with x/y domain `m` leaves in a target slice with x/y domain `s`. */
  function SliceAfter(values: seq<real>, before: seq<real>, m: Plane, s: Plane): (r: seq<real>)
    requires Placeable(values, before, m, s)
    ensures |r| == s.Area()
  {
    Transposed(Unturned(values, before, m, s), s.H(), s.W())
  }

  /** The value a target cell should have: the message's, or the one it had. */
  function Wanted(values: seq<real>, before: seq<real>, m: Plane, s: Plane, px: int, py: int): real
    requires Placeable(values, before, m, s) && s.Has(px, py)
  {
    ByColumnBound(s, px, py);
    if m.Has(px, py) then ByRowBound(m, px, py); values[m.ByRow(px, py)] else before[s.ByColumn(px, py)]
  }

  predicate CellRight(values: seq<real>, before: seq<real>, m: Plane, s: Plane, px: int, py: int)
    requires Placeable(values, before, m, s) && s.Has(px, py)
  {
    ByColumnBound(s, px, py);
    SliceAfter(values, before, m, s)[s.ByColumn(px, py)] == Wanted(values, before, m, s, px, py)
  }

  ghost predicate SliceRight(values: seq<real>, before: seq<real>, m: Plane, s: Plane)
    requires Placeable(values, before, m, s)
  {
    forall px, py :: s.Has(px, py) ==> CellRight(values, before, m, s, px, py)
  }

  /** The subset starts inside the message, and ends inside it unless it is a single line. */
  predicate Fits(m: Plane, s: Plane) {
    && m.x.lo <= s.x.lo && m.y.lo <= s.y.lo
    && ((s.x.hi <= m.x.hi && s.y.hi <= m.y.hi) || s.W() == 1 || s.H() == 1)
  }

  lemma CellFrom(values: seq<real>, before: seq<real>, m: Plane, s: Plane, px: int, py: int)
    requires Placeable(values, before, m, s) && s.Has(px, py)
    ensures 0 <= s.ByRow(px, py) < s.Area() && 0 <= s.ByColumn(px, py) < s.Area()
    ensures SliceAfter(values, before, m, s)[s.ByColumn(px, py)] == Unturned(values, before, m, s)[s.ByRow(px, py)]
  {
    hide Unturned, Transposed;
    TransposedAt(s, Unturned(values, before, m, s), px, py);
  }

  /** Where an entry of the slice comes from before the final transposition. */
  lemma UnturnedAt(values: seq<real>, before: seq<real>, m: Plane, s: Plane, k: nat)
    requires Placeable(values, before, m, s) && k < s.Area()
    ensures Meet(m, s).Area() <= s.Area()
    ensures m.W() == s.W() && m.H() == s.H() ==> Unturned(values, before, m, s) == values
    ensures !(m.W() == s.W() && m.H() == s.H()) ==>
              Unturned(values, before, m, s)[k] ==
              if k < Meet(m, s).Area() then Packed(values, m, Meet(m, s))[k] else before[k]
  {
    hide Packed;
    AreaMono(Meet(m, s), s);
  }

  lemma LineNumbers(s: Plane, px: int, py: int)
    requires s.Ok() && s.Has(px, py) && (s.W() == 1 || s.H() == 1)
    ensures s.ByRow(px, py) == s.ByColumn(px, py) == px - s.x.lo + py - s.y.lo
  {
    MulZero(s.W());
    MulZero(s.H());
    if s.W() == 1 { assert px == s.x.lo && py - s.y.lo == (py - s.y.lo) * 1; }
    if s.H() == 1 { assert py == s.y.lo && px - s.x.lo == (px - s.x.lo) * 1; }
  }

  lemma LineArea(t: Plane)
    requires t.Ok() && (t.W() == 1 || t.H() == 1)
    ensures t.Area() == t.W() + t.H() - 1
  {
  }

  lemma FitsRight(values: seq<real>, before: seq<real>, m: Plane, s: Plane, px: int, py: int)
    requires Placeable(values, before, m, s) && m.W() > 1 && m.H() > 1 && Fits(m, s) && s.Has(px, py)
    ensures CellRight(values, before, m, s, px, py)
  {
    hide SliceAfter, Packed, Unturned, Plane.ByRow, Plane.ByColumn, Plane.Area;
    var t := Meet(m, s);
    CellFrom(values, before, m, s, px, py);
    UnturnedAt(values, before, m, s, s.ByRow(px, py));
    if m.Has(px, py) {
      ByRowBound(m, px, py);
      if m.W() == s.W() && m.H() == s.H() {
        assert m == s;
      } else {
        PackedAt(values, m, t, px, py);
        if Within(s, m) { assert t == s; } else { LineNumbers(s, px, py); LineNumbers(t, px, py); }
      }
    } else {
      LineNumbers(s, px, py);
      LineArea(t);
    }
  }

  /** All values differ, also from everything in `Marks`. */
  function Ramp(n: nat): seq<real> { seq(n, k => k as real) }
  function Marks(n: nat): seq<real> { seq(n, k => -1.0 - k as real) }

  lemma MisfitWrong(m: Plane, s: Plane)
    requires m.Ok() && s.Ok() && Meet(m, s).Ok() && m.W() > 1 && m.H() > 1 && !Fits(m, s)
    ensures exists px, py :: s.Has(px, py) && !CellRight(Ramp(m.Area()), Marks(s.Area()), m, s, px, py)
  {
    hide SliceAfter, Packed, Unturned;
    var t := Meet(m, s);
    AreaMono(t, s);
    var px, py := t.x.lo, t.y.lo;
    if m.x.lo <= s.x.lo && m.y.lo <= s.y.lo {
      px, py := if t.H() < s.H() then s.x.lo else s.x.hi, if t.H() < s.H() then s.y.hi else s.y.lo;
      OutsideMoves(m, s, px, py);
    } else {
      CornerMoves(m, s);
    }
    assert !CellRight(Ramp(m.Area()), Marks(s.Area()), m, s, px, py);
  }

  lemma CornerMoves(m: Plane, s: Plane)
    requires m.Ok() && s.Ok() && Meet(m, s).Ok() && !(m.x.lo <= s.x.lo && m.y.lo <= s.y.lo)
    ensures var t := Meet(m, s);
            s.Has(t.x.lo, t.y.lo) && !CellRight(Ramp(m.Area()), Marks(s.Area()), m, s, t.x.lo, t.y.lo)
  {
    hide SliceAfter, Packed;
    var t := Meet(m, s);
    AreaMono(t, s);
    var k := s.ByRow(t.x.lo, t.y.lo);
    CellFrom(Ramp(m.Area()), Marks(s.Area()), m, s, t.x.lo, t.y.lo);
    ByRowBound(m, t.x.lo, t.y.lo);
    ByRowUnique(s, t.x.lo, t.y.lo, t.x.lo, t.y.lo);
    assert k > 0 by { Positive(s, t.x.lo, t.y.lo); }
    if m.W() == s.W() && m.H() == s.H() {
      if k == m.ByRow(t.x.lo, t.y.lo) {
        DivUnique(k, m.W(), t.y.lo - s.y.lo, t.x.lo - s.x.lo);
        DivUnique(k, m.W(), t.y.lo - m.y.lo, t.x.lo - m.x.lo);
      }
    } else if k < t.Area() {
      PackedIndex(m, t, k);
      var qx, qy := t.x.lo + k % t.W(), t.y.lo + k / t.W();
      PackedAt(Ramp(m.Area()), m, t, qx, qy);
      MulZero(t.W());
      if m.ByRow(qx, qy) == m.ByRow(t.x.lo, t.y.lo) { ByRowUnique(m, qx, qy, t.x.lo, t.y.lo); }
    }
  }

  lemma Positive(s: Plane, px: int, py: int)
    requires s.Ok() && s.Has(px, py) && (px > s.x.lo || py > s.y.lo)
    ensures s.ByRow(px, py) > 0
  {
    if py > s.y.lo { MulAtLeast(py - s.y.lo, 1, s.W()); }
  }

  lemma OutsideMoves(m: Plane, s: Plane, px: int, py: int)
    requires m.Ok() && s.Ok() && Meet(m, s).Ok() && m.W() > 1 && m.H() > 1
    requires m.x.lo <= s.x.lo && m.y.lo <= s.y.lo && s.W() > 1 && s.H() > 1 && !Within(s, m)
    requires if Meet(m, s).H() < s.H() then px == s.x.lo && py == s.y.hi else px == s.x.hi && py == s.y.lo
    ensures s.Has(px, py) && !CellRight(Ramp(m.Area()), Marks(s.Area()), m, s, px, py)
  {
    hide SliceAfter, Packed, Unturned, Plane.Area;
    var t := Meet(m, s);
    CellFrom(Ramp(m.Area()), Marks(s.Area()), m, s, px, py);
    assert !m.Has(px, py);
    var k := s.ByRow(px, py);
    UnturnedAt(Ramp(m.Area()), Marks(s.Area()), m, s, k);
    NumbersDiffer(s, px, py);
    hide Plane.ByRow, Plane.ByColumn;
    if !(m.W() == s.W() && m.H() == s.H()) && k < t.Area() { RampPacked(m, t, k); }
  }

  lemma NumbersDiffer(s: Plane, px: int, py: int)
    requires s.W() > 1 && s.H() > 1 && ((px == s.x.lo && py == s.y.hi) || (px == s.x.hi && py == s.y.lo))
    ensures s.ByRow(px, py) != s.ByColumn(px, py)
  {
    MulZero(s.W());
    MulZero(s.H());
    if py == s.y.hi {
      MulAtLeast(s.H() - 1, 1, s.W() - 1);
      Expand(s.H() - 1, s.W());
    } else {
      MulAtLeast(s.W() - 1, 1, s.H() - 1);
      Expand(s.W() - 1, s.H());
    }
  }

  lemma Expand(a: int, b: int)
    ensures a * (b - 1) == a * b - a
  {
  }

  lemma RampPacked(m: Plane, t: Plane, k: nat)
    requires t.Ok() && m.Ok() && Within(t, m) && k < t.Area()
    ensures Packed(Ramp(m.Area()), m, t)[k] >= 0.0
  {
    PackedIndex(m, t, k);
  }

  /** Decoding is right for all messages and all contents of the target exactly when the subset fits. */
  lemma SliceRightIffFits(m: Plane, s: Plane)
    requires m.Ok() && s.Ok() && Meet(m, s).Ok() && m.W() > 1 && m.H() > 1
    ensures Fits(m, s) <==>
            forall values, before | Placeable(values, before, m, s) :: SliceRight(values, before, m, s)
  {
    hide SliceAfter, Fits, CellRight;
    if Fits(m, s) {
      forall values, before | Placeable(values, before, m, s) ensures SliceRight(values, before, m, s) {
        forall px, py | s.Has(px, py) ensures CellRight(values, before, m, s, px, py) {
          FitsRight(values, before, m, s, px, py);
        }
      }
    } else {
      MisfitWrong(m, s);
      assert !SliceRight(Ramp(m.Area()), Marks(s.Area()), m, s);
    }
  }

  /** The transposed subset goes through the buffer of the message, which has to hold it. */
  predicate BufferHolds(m: Plane, s: Plane)
    requires m.Ok() && s.Ok()
  {
    (m.W() == s.W() && m.H() == s.H()) || s.Area() <= m.Area()
  }

  /** Decoding stays inside its buffers and is right, for all messages and all contents of the target. */
  ghost predicate Sound(m: Plane, s: Plane)
    requires m.Ok() && s.Ok()
  {
    && BufferHolds(m, s)
    && forall values, before | Placeable(values, before, m, s) :: SliceRight(values, before, m, s)
  }

  /** The exact condition: the subset fits the message's range and has no more cells than the message. */
  lemma SoundIff(m: Plane, s: Plane)
    requires m.Ok() && s.Ok() && Meet(m, s).Ok() && m.W() > 1 && m.H() > 1
    ensures Sound(m, s) <==> Fits(m, s) && s.Area() <= m.Area()
  {
    hide SliceRight, Fits;
    SliceRightIffFits(m, s);
  }

  /** A line of ten cells out of a message of four: every cell would be right, but the buffer is overrun. */
  lemma OverrunExample()
    ensures var m, s := Plane(Interval(0, 1), Interval(0, 1)), Plane(Interval(0, 0), Interval(0, 9));
            && Meet(m, s).Ok() && Fits(m, s) && s.Area() == 10 && m.Area() == 4 && !BufferHolds(m, s) && !Sound(m, s)
            && forall values, before | Placeable(values, before, m, s) :: SliceRight(values, before, m, s)
  {
    var m, s := Plane(Interval(0, 1), Interval(0, 1)), Plane(Interval(0, 0), Interval(0, 9));
    SliceRightIffFits(m, s);
  }

  // ---------- the loops of the converter ----------

  /** `memcpy` between two buffers. */
  method Copy(src: array<real>, srcAt: nat, dst: array<real>, dstAt: nat, n: nat)
    requires src != dst && srcAt + n <= src.Length && dstAt + n <= dst.Length
    modifies dst
    ensures dst[..] == Put(old(dst[..]), dstAt, src[srcAt..srcAt + n])
  {
    forall k | 0 <= k < n { dst[dstAt + k] := src[srcAt + k]; }
  }

  /** `r_Convertor::transpose`, from one buffer position to another. */
  method Transpose(src: array<real>, srcAt: nat, dst: array<real>, dstAt: nat, N: nat, M: nat)
    requires src != dst && srcAt + N * M <= src.Length && dstAt + N * M <= dst.Length
    modifies dst
    ensures dst[..] == Put(old(dst[..]), dstAt, Transposed(src[srcAt..srcAt + N * M], N, M))
  {
    ghost var s := src[srcAt..srcAt + N * M];
    for n := 0 to N * M
      invariant dst[..] == Put(old(dst[..]), dstAt, Transposed(s, N, M)[..n])
    {
      SourceIndex(n, N, M);
      var i := n / N;
      var j := n % N;
      dst[dstAt + n] := src[srcAt + (M * j + i)];
      assert dst[dstAt + n] == Transposed(s, N, M)[n];
    }
  }

  lemma LineStart(t: Plane, m: Plane, line: nat)
    requires t.Ok() && m.Ok() && Within(t, m) && line < t.H()
    ensures 0 <= line * t.W() && (line + 1) * t.W() == line * t.W() + t.W() <= t.Area()
    ensures 0 <= m.ByRow(t.x.lo, t.y.lo + line) && m.ByRow(t.x.lo, t.y.lo + line) + t.W() <= m.Area()
  {
    MulMono(0, line, t.W());
    MulMono(line + 1, t.H(), t.W());
    ByRowBound(m, t.x.hi, t.y.lo + line);
    ByRowBound(m, t.x.lo, t.y.lo + line);
  }

  lemma PackedLine(values: seq<real>, m: Plane, t: Plane, line: nat)
    requires t.Ok() && m.Ok() && Within(t, m) && |values| == m.Area() && line < t.H()
    ensures var res, op := line * t.W(), m.ByRow(t.x.lo, t.y.lo + line);
            && 0 <= res <= res + t.W() <= t.Area() && 0 <= op <= op + t.W() <= m.Area()
            && Packed(values, m, t)[res..res + t.W()] == values[op..op + t.W()]
  {
    hide Packed;
    LineStart(t, m, line);
    var res, op := line * t.W(), m.ByRow(t.x.lo, t.y.lo + line);
    var copied, line' := Packed(values, m, t)[res..res + t.W()], values[op..op + t.W()];
    forall j | 0 <= j < t.W() ensures copied[j] == line'[j] {
      PackedAt(values, m, t, t.x.lo + j, t.y.lo + line);
    }
  }

  /** The line-wise copy of `decodeSubset`: both iterators move one line at a time. */
  method CopyLines(dest: array<real>, at: nat, data: array<real>, m: Plane, t: Plane)
    requires dest != data && t.Ok() && m.Ok() && Within(t, m)
    requires data.Length == m.Area() && at + t.Area() <= dest.Length
    modifies dest
    ensures dest[..] == Put(old(dest[..]), at, Packed(data[..], m, t))
  {
    hide Packed, Plane.ByRow, Plane.Area, Put;
    ghost var lines := Packed(data[..], m, t);
    var line, res := 0, 0;
    while line < t.H()
      invariant 0 <= line <= t.H() && res == line * t.W() <= t.Area()
      invariant dest[..] == Put(old(dest[..]), at, lines[..res])
    {
      LineStart(t, m, line);
      PackedLine(data[..], m, t, line);
      var op := m.ByRow(t.x.lo, t.y.lo + line);
      Copy(data, op, dest, at + res, t.W());
      PutNext(old(dest[..]), at, lines, res, t.W());
      line, res := line + 1, res + t.W();
    }
    LinesDone(t, line);
  }

  lemma LinesDone(t: Plane, line: int)
    requires t.Ok() && line == t.H()
    ensures line * t.W() == t.Area()
  {
  }

  lemma PutNext(s: seq<real>, at: nat, part: seq<real>, n: nat, k: nat)
    requires at + |part| <= |s| && n + k <= |part|
    ensures Put(Put(s, at, part[..n]), at + n, part[n..n + k]) == Put(s, at, part[..n + k])
  {
  }

  /**
   `decodeSubset`: pack into the target, transpose into the message buffer, copy back. It fails where the
   transposition would write behind the end of the message buffer.
   */
  method DecodeSubset(dest: array<real>, at: nat, data: array<real>, m: Plane, s: Plane) returns (ok: bool)
    requires dest != data && m.Ok() && s.Ok() && Meet(m, s).Ok()
    requires !(m.W() == s.W() && m.H() == s.H()) && data.Length == m.Area()
    requires at + s.Area() <= dest.Length
    modifies dest, data
    ensures ok <==> BufferHolds(m, s)
    ensures ok ==>
      dest[..] == Put(old(dest[..]), at, SliceAfter(old(data[..]), old(dest[at..at + s.Area()]), m, s))
  {
    hide Packed, Transposed, Unturned, Plane.ByRow, Plane.ByColumn, Put;
    var t := Meet(m, s);
    AreaMono(t, s);
    var area := s.H() * s.W();
    ghost var values, before, all := data[..], dest[at..at + area], dest[..];
    CopyLines(dest, at, data, m, t);
    if area > data.Length { return false; }
    PackedSlice(values, all, before, m, s, at);
    Transpose(dest, at, data, 0, s.H(), s.W());
    ghost var after := SliceAfter(values, before, m, s);
    assert data[..area] == after;
    Copy(data, 0, dest, at, area);
    PutAgain(all, at, Packed(values, m, t), after);
    return true;
  }

  lemma PutAgain(s: seq<real>, at: nat, first: seq<real>, second: seq<real>)
    requires |first| <= |second| && at + |second| <= |s|
    ensures Put(Put(s, at, first), at, second) == Put(s, at, second)
  {
  }

  lemma PackedSlice(values: seq<real>, all: seq<real>, before: seq<real>, m: Plane, s: Plane, at: nat)
    requires Placeable(values, before, m, s) && !(m.W() == s.W() && m.H() == s.H())
    requires at + s.Area() <= |all| && before == all[at..at + s.Area()]
    ensures Meet(m, s).Area() <= s.Area()
    ensures Put(all, at, Packed(values, m, Meet(m, s)))[at..at + s.Area()] == Unturned(values, before, m, s)
  {
    hide Packed;
    AreaMono(Meet(m, s), s);
  }

  /** One message's values go into the slice at `at`, as `convertFrom` chooses between the two ways. */
  method DecodeSlice(dest: array<real>, at: nat, data: array<real>, m: Plane, s: Plane, subsetSpecified: bool)
    returns (ok: bool)
    requires dest != data && m.Ok() && s.Ok() && Meet(m, s).Ok()
    requires (!subsetSpecified ==> m == s) && data.Length == m.Area() && at + s.Area() <= dest.Length
    modifies dest, data
    ensures ok <==> BufferHolds(m, s)
    ensures ok ==>
      dest[..] == Put(old(dest[..]), at, SliceAfter(old(data[..]), old(dest[at..at + s.Area()]), m, s))
  {
    hide Packed, Transposed;
    if subsetSpecified && (s.W() != m.W() || s.H() != m.H()) {
      ok := DecodeSubset(dest, at, data, m, s);
    } else {
      assert data[0..0 + s.H() * s.W()] == data[..];
      Transpose(data, 0, dest, at, s.H(), s.W());
      ok := true;
    }
  }
}

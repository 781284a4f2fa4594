/**
 Writing an integer array as nested CSV or JSON text and reading it back.

 `Print` is the text that `printArray` emits, `Scan` what the decoder makes of any text; the methods at
 the end are the loops of the source, proved to compute them.
 */
module CsvText {
  import opened Prelude
  import opened Boxes

  /** The delimiters of the format: CSV has braces and no outer pair, JSON brackets and an outer pair. */
  datatype Style = Style(left: char, right: char, outer: bool)

  const CSV := Style('{', '}', false)
  const JSON := Style('[', ']', true)

  predicate KnownStyle(st: Style) { st == CSV || st == JSON }

  /** The 16- and 32-bit integer cell types. */
  datatype IntType = IntType(bits: nat, signed: bool) {
    predicate Ok() { bits == 16 || bits == 32 }
    function Count(): int { if bits == 16 then 0x1_0000 else 0x1_0000_0000 }
    function Lo(): int { if signed then -(Count() / 2) else 0 }
    function Hi(): int { Lo() + Count() - 1 }
    predicate Has(v: int) { Lo() <= v <= Hi() }
  }

  // ---------- numbers ----------

  predicate IsDigit(c: char) { '0' <= c <= '9' }

  function DigitOf(c: char): (d: nat)
    requires IsDigit(c)
    ensures d < 10
  {
    c as int - '0' as int
  }

  function DecNat(n: nat): (s: string)
    ensures s != "" && forall i :: 0 <= i < |s| ==> IsDigit(s[i])
  {
    var last := ['0' + (n % 10) as char];
    if n < 10 then last else DecNat(n / 10) + last
  }

  /** Decimal output of an integer. */
  function Dec(v: int): (s: string)
    ensures s != "" && forall i :: 0 <= i < |s| ==> IsDigit(s[i]) || (i == 0 && s[i] == '-')
  {
    if v < 0 then "-" + DecNat(-v) else DecNat(v)
  }

  function Value(ds: string): nat
    requires forall i :: 0 <= i < |ds| ==> IsDigit(ds[i])
  {
    if ds == "" then 0 else Value(ds[..|ds| - 1]) * 10 + DigitOf(ds[|ds| - 1])
  }

  function Digits(s: string): (ds: string)
    ensures ds <= s && forall i :: 0 <= i < |ds| ==> IsDigit(ds[i])
  {
    if s == "" || !IsDigit(s[0]) then "" else [s[0]] + Digits(s[1..])
  }

  datatype Number = Number(value: int, ok: bool, rest: string)

  /**
   `istream >> value`: an optional sign and as many digits as there are. No digit, or a number the type cannot
   hold, sets the fail bit and still stores a value; a negative number wraps into an unsigned type.
   */
  function ReadInt(s: string, t: IntType): (r: Number)
    requires t.Ok()
    ensures |r.rest| <= |s| && (r.ok ==> |r.rest| < |s|)
    ensures r.ok ==> t.Has(r.value)
  {
    var neg := s != "" && s[0] == '-';
    var body := if s != "" && (s[0] == '-' || s[0] == '+') then s[1..] else s;
    var ds := Digits(body);
    var rest := body[|ds|..];
    var mag: int := Value(ds);
    if ds == "" then Number(0, false, rest)
    else if t.signed then
      var v := if neg then -mag else mag;
      if v < t.Lo() then Number(t.Lo(), false, rest)
      else if v > t.Hi() then Number(t.Hi(), false, rest)
      else Number(v, true, rest)
    else if mag > t.Hi() then Number(t.Hi(), false, rest)
    else Number(if neg && mag > 0 then t.Count() - mag else mag, true, rest)
  }

  /** The text continues with something that cannot extend a number. */
  predicate Stops(rest: string) { rest == "" || !IsDigit(rest[0]) }

  lemma {:induction false} DigitsOf(ds: string, rest: string)
    requires Stops(rest) && forall i :: 0 <= i < |ds| ==> IsDigit(ds[i])
    ensures Digits(ds + rest) == ds
  {
    if ds == "" {
      assert ds + rest == rest;
    } else {
      assert (ds + rest)[1..] == ds[1..] + rest && (ds + rest)[0] == ds[0];
      DigitsOf(ds[1..], rest);
    }
  }

  lemma {:induction false} ValueOfDec(n: nat)
    ensures Value(DecNat(n)) == n
  {
    var s := DecNat(n);
    assert s[|s| - 1] == '0' + (n % 10) as char;
    if n < 10 {
      assert s[..|s| - 1] == "";
    } else {
      assert s[..|s| - 1] == DecNat(n / 10);
      ValueOfDec(n / 10);
    }
  }

  /** A printed number is read back, and nothing more. */
  lemma ReadPrinted(v: int, t: IntType, rest: string)
    requires t.Ok() && t.Has(v) && Stops(rest)
    ensures ReadInt(Dec(v) + rest, t) == Number(v, true, rest)
  {
    hide Digits, Value, DecNat;
    var n: nat := if v < 0 then -v else v;
    var ds := DecNat(n);
    DigitsOf(ds, rest);
    ValueOfDec(n);
    DropPrefix(ds, rest);
    if v < 0 {
      assert ("-" + ds + rest)[1..] == ds + rest;
    } else {
      assert (ds + rest)[0] == ds[0];
    }
  }

  /** The bounds of the types. */
  lemma Bounds()
    ensures forall v :: IntType(16, true).Has(v) <==> -32768 <= v <= 32767
    ensures forall v :: IntType(16, false).Has(v) <==> 0 <= v <= 65535
    ensures forall v :: IntType(32, true).Has(v) <==> -2147483648 <= v <= 2147483647
    ensures forall v :: IntType(32, false).Has(v) <==> 0 <= v <= 4294967295
    ensures forall t: IntType :: t.Ok() <==> t in {IntType(16, true), IntType(16, false), IntType(32, true), IntType(32, false)}
  {
  }

  /**
   Numbers of any size: one the type has is read as it is. Of the others a signed type stores its nearest bound and
   fails; an unsigned type does so above its range, and takes a negative number modulo its count if it can hold its
   magnitude.
   */
  lemma ReadAny(v: int, t: IntType, rest: string)
    requires t.Ok() && Stops(rest)
    ensures ReadInt(Dec(v) + rest, t) ==
            if t.Has(v) then Number(v, true, rest)
            else if v > t.Hi() || (!t.signed && -v > t.Hi()) then Number(t.Hi(), false, rest)
            else if t.signed then Number(t.Lo(), false, rest)
            else Number(v + t.Count(), true, rest)
    ensures v >= 0 ==> ReadInt("+" + Dec(v) + rest, t) == ReadInt(Dec(v) + rest, t)
  {
    hide Digits, Value, DecNat;
    var n: nat := if v < 0 then -v else v;
    var ds := DecNat(n);
    DigitsOf(ds, rest);
    ValueOfDec(n);
    DropPrefix(ds, rest);
    if v < 0 {
      assert ("-" + ds + rest)[1..] == ds + rest;
    } else {
      assert (ds + rest)[0] == ds[0];
      assert ("+" + ds + rest)[1..] == ds + rest;
    }
  }

  /** Without a digit, behind a sign or not, nothing is read: zero is stored, and the read fails. */
  lemma ReadNothing(s: string, t: IntType)
    requires t.Ok() && (s == "" || (s[0] != '-' && s[0] != '+' && Stops(s)) || ((s[0] == '-' || s[0] == '+') && Stops(s[1..])))
    ensures ReadInt(s, t).value == 0 && !ReadInt(s, t).ok
  {
  }

  lemma DropPrefix(a: string, b: string)
    ensures (a + b)[|a|..] == b
  {
  }

  // ---------- reading ----------

  /** `isspace` and `isprint` of the C locale. */
  predicate IsSpace(c: char) { c == ' ' || '\t' <= c <= '\r' }
  predicate IsPrint(c: char) { ' ' <= c <= '~' }

  predicate IsValidCharacter(c: char) {
    !(c == '{' || c == '}' || c == ',' || c == '"' || c == '\'' || c == '(' || c == ')' || c == '[' || c == ']'
      || IsSpace(c) || !IsPrint(c))
  }

  /** The characters a value may begin with: the visible ones but for delimiters, quotes and the comma. */
  lemma ValueBegins(c: char)
    ensures IsValidCharacter(c) <==> '!' <= c <= '~' && c !in "{},\"'()[]"
  {
  }

  /** The values `constructPrimitive` stores, at most `need` of them; a failed conversion is the last. */
  function Scan(s: string, need: nat, t: IntType): (vs: seq<int>)
    requires t.Ok()
    ensures |vs| <= need
    decreases |s|
  {
    if s == "" || need == 0 then []
    else if !IsValidCharacter(s[0]) then Scan(s[1..], need, t)
    else
      var r := ReadInt(s, t);
      if r.ok then [r.value] + Scan(r.rest, need - 1, t) else [r.value]
  }

  /** `convertFrom`: the array, or an error when the number of values is wrong. */
  function Decode(s: string, numElem: nat, t: IntType): Option<seq<int>>
    requires t.Ok()
  {
    var vs := Scan(s, numElem, t);
    if |vs| == numElem then Some(vs) else None
  }

  // ---------- writing ----------

  /** How far the last cell lies behind the first. */
  function Reach(dims: seq<nat>, offs: seq<nat>): nat
    requires |dims| == |offs|
  {
    if dims == [] || dims[0] == 0 then 0 else Reach(dims[1..], offs[1..]) + (dims[0] - 1) * offs[0]
  }

  /** The array section that starts at cell p exists in `src`. */
  predicate Readable(src: seq<int>, dims: seq<nat>, offs: seq<nat>, p: nat) {
    && |dims| == |offs| >= 1 && (forall i :: 0 <= i < |dims| ==> dims[i] >= 1)
    && p + Reach(dims, offs) < |src|
  }

  lemma ReadableRow(src: seq<int>, dims: seq<nat>, offs: seq<nat>, p: nat, i: nat)
    requires Readable(src, dims, offs, p) && i < dims[0]
    ensures i * offs[0] >= 0 && p + i * offs[0] < |src|
    ensures |dims| > 1 ==> Readable(src, dims[1..], offs[1..], p + i * offs[0])
  {
    MulMono(i, dims[0] - 1, offs[0]);
    MulMono(0, i, offs[0]);
  }

  /** Row i of the section: a cell, or a delimited section of one axis less. */
  function PrintRow(st: Style, src: seq<int>, dims: seq<nat>, offs: seq<nat>, p: nat, i: nat): string
    requires Readable(src, dims, offs, p) && i < dims[0]
    decreases |dims|, dims[0] - i, 0
  {
    ReadableRow(src, dims, offs, p, i);
    if |dims| == 1 then Dec(src[p + i * offs[0]])
    else [st.left] + (Print(st, src, dims[1..], offs[1..], p + i * offs[0]) + [st.right])
  }

  /** Row i and everything behind it. */
  function PrintFrom(st: Style, src: seq<int>, dims: seq<nat>, offs: seq<nat>, p: nat, i: nat): string
    requires Readable(src, dims, offs, p) && i < dims[0]
    decreases |dims|, dims[0] - i, 1
  {
    if i < dims[0] - 1 then PrintRow(st, src, dims, offs, p, i) + ("," + PrintFrom(st, src, dims, offs, p, i + 1))
    else PrintRow(st, src, dims, offs, p, i)
  }

  function Print(st: Style, src: seq<int>, dims: seq<nat>, offs: seq<nat>, p: nat): string
    requires Readable(src, dims, offs, p)
    decreases |dims|, dims[0] + 1, 0
  {
    PrintFrom(st, src, dims, offs, p, 0)
  }

  /** The cells of row i, and of row i and everything behind it, in the order in which they are printed. */
  function RowCells(src: seq<int>, dims: seq<nat>, offs: seq<nat>, p: nat, i: nat): seq<int>
    requires Readable(src, dims, offs, p) && i < dims[0]
    decreases |dims|, dims[0] - i, 0
  {
    ReadableRow(src, dims, offs, p, i);
    if |dims| == 1 then [src[p + i * offs[0]]] else Cells(src, dims[1..], offs[1..], p + i * offs[0])
  }

  function CellsFrom(src: seq<int>, dims: seq<nat>, offs: seq<nat>, p: nat, i: nat): seq<int>
    requires Readable(src, dims, offs, p) && i < dims[0]
    decreases |dims|, dims[0] - i, 1
  {
    if i < dims[0] - 1 then RowCells(src, dims, offs, p, i) + CellsFrom(src, dims, offs, p, i + 1)
    else RowCells(src, dims, offs, p, i)
  }

  function Cells(src: seq<int>, dims: seq<nat>, offs: seq<nat>, p: nat): seq<int>
    requires Readable(src, dims, offs, p)
    decreases |dims|, dims[0] + 1, 0
  {
    CellsFrom(src, dims, offs, p, 0)
  }

  /** `convertTo`: a lone axis is always wrapped, several axes only by formats with an outer pair. */
  function Text(st: Style, src: seq<int>, dims: seq<nat>, offs: seq<nat>): string
    requires Readable(src, dims, offs, 0)
  {
    var body := Print(st, src, dims, offs, 0);
    if |dims| == 1 || st.outer then [st.left] + body + [st.right] else body
  }

  // ---------- reading what was written ----------

  predicate AllIn(src: seq<int>, t: IntType) { forall i :: 0 <= i < |src| ==> t.Has(src[i]) }

  lemma DelimitersIgnored(c: char, s: string, need: nat, t: IntType)
    requires t.Ok() && !IsValidCharacter(c)
    ensures Scan([c] + s, need, t) == Scan(s, need, t)
  {
    assert ([c] + s)[1..] == s;
  }

  lemma NumberScanned(v: int, rest: string, need: nat, t: IntType)
    requires t.Ok() && t.Has(v) && Stops(rest) && need >= 1
    ensures Scan(Dec(v) + rest, need, t) == [v] + Scan(rest, need - 1, t)
  {
    ReadPrinted(v, t, rest);
    var s := Dec(v) + rest;
    assert s[0] == Dec(v)[0];
    assert IsDigit(s[0]) || s[0] == '-';
  }

  lemma {:induction false} RowScanned(st: Style, src: seq<int>, dims: seq<nat>, offs: seq<nat>, p: nat, i: nat,
                                      rest: string, need: nat, t: IntType)
    requires KnownStyle(st) && t.Ok() && AllIn(src, t) && Stops(rest)
    requires Readable(src, dims, offs, p) && i < dims[0]
    requires need >= |RowCells(src, dims, offs, p, i)|
    ensures var cs := RowCells(src, dims, offs, p, i);
            Scan(PrintRow(st, src, dims, offs, p, i) + rest, need, t) == cs + Scan(rest, need - |cs|, t)
    decreases |dims|, dims[0] - i, 0
  {
    hide Scan, Dec, Reach, Readable;
    PositiveRows(src, dims, offs, p);
    ReadableRow(src, dims, offs, p, i);
    var q := p + i * offs[0];
    if |dims| == 1 {
      NumberScanned(src[q], rest, need, t);
    } else {
      var inner := Print(st, src, dims[1..], offs[1..], q);
      assert PrintRow(st, src, dims, offs, p, i) + rest == [st.left] + (inner + ([st.right] + rest));
      DelimitersIgnored(st.left, inner + ([st.right] + rest), need, t);
      PositiveRows(src, dims[1..], offs[1..], q);
      PrintedScanned(st, src, dims[1..], offs[1..], q, 0, [st.right] + rest, need, t);
      DelimitersIgnored(st.right, rest, need - |RowCells(src, dims, offs, p, i)|, t);
    }
  }

  lemma PositiveRows(src: seq<int>, dims: seq<nat>, offs: seq<nat>, p: nat)
    requires Readable(src, dims, offs, p)
    ensures |dims| == |offs| >= 1 && dims[0] >= 1
  {
  }

  /** The decoder's loop reads a printed section as its cells, and goes on behind it. */
  lemma {:induction false} PrintedScanned(st: Style, src: seq<int>, dims: seq<nat>, offs: seq<nat>, p: nat, i: nat,
                                          rest: string, need: nat, t: IntType)
    requires KnownStyle(st) && t.Ok() && AllIn(src, t) && Stops(rest)
    requires Readable(src, dims, offs, p) && i < dims[0]
    requires need >= |CellsFrom(src, dims, offs, p, i)|
    ensures var cs := CellsFrom(src, dims, offs, p, i);
            Scan(PrintFrom(st, src, dims, offs, p, i) + rest, need, t) == cs + Scan(rest, need - |cs|, t)
    decreases |dims|, dims[0] - i, 1
  {
    hide Scan, PrintRow, RowCells, Readable;
    PositiveRows(src, dims, offs, p);
    if i < dims[0] - 1 {
      var tail := PrintFrom(st, src, dims, offs, p, i + 1) + rest;
      assert PrintFrom(st, src, dims, offs, p, i) + rest == PrintRow(st, src, dims, offs, p, i) + ("," + tail);
      RowScanned(st, src, dims, offs, p, i, "," + tail, need, t);
      var left := need - |RowCells(src, dims, offs, p, i)|;
      DelimitersIgnored(',', tail, left, t);
      PrintedScanned(st, src, dims, offs, p, i + 1, rest, left, t);
    } else {
      RowScanned(st, src, dims, offs, p, i, rest, need, t);
    }
  }

  /** Every text written from an array of the type decodes to the printed cells. */
  lemma DecodeText(st: Style, src: seq<int>, dims: seq<nat>, offs: seq<nat>, t: IntType)
    requires KnownStyle(st) && t.Ok() && AllIn(src, t) && Readable(src, dims, offs, 0)
    ensures var cs := Cells(src, dims, offs, 0);
            Decode(Text(st, src, dims, offs), |cs|, t) == Some(cs)
  {
    hide Scan, PrintFrom, CellsFrom;
    var body, cs := Print(st, src, dims, offs, 0), Cells(src, dims, offs, 0);
    ScanNothing([st.right], t);
    ScanNothing("", t);
    if |dims| == 1 || st.outer {
      assert Text(st, src, dims, offs) == [st.left] + (body + [st.right]);
      DelimitersIgnored(st.left, body + [st.right], |cs|, t);
      PrintedScanned(st, src, dims, offs, 0, 0, [st.right], |cs|, t);
    } else {
      assert body + "" == body;
      PrintedScanned(st, src, dims, offs, 0, 0, "", |cs|, t);
    }
    assert cs + [] == cs;
  }

  lemma ScanNothing(s: string, t: IntType)
    requires t.Ok()
    ensures Scan(s, 0, t) == []
    decreases |s|
  {
  }

  // ---------- which cell is printed where ----------

  /** The domain of an array with the given extents, based at the origin. */
  function DimBox(dims: seq<nat>): (b: Box)
    ensures |b| == |dims|
    ensures (forall i :: 0 <= i < |dims| ==> dims[i] >= 1) ==> Valid(b)
  {
    seq(|dims|, i requires 0 <= i < |dims| => Interval(0, dims[i] as int - 1))
  }

  function Dot(x: seq<int>, offs: seq<nat>): int
    requires |x| == |offs|
  {
    if x == [] then 0 else x[0] * offs[0] + Dot(x[1..], offs[1..])
  }

  lemma DimBoxRest(dims: seq<nat>)
    requires dims != []
    ensures DimBox(dims)[1..] == DimBox(dims[1..])
  {
  }

  lemma RowStep(i: nat, j: nat, c: nat, k: nat, m: nat)
    requires i < j && m == (j - i) * c + k
    ensures m >= c && m - c == (j - (i + 1)) * c + k
  {
    assert (j - i) * c == c + (j - (i + 1)) * c;
    MulMono(0, j - (i + 1), c);
  }

  /** Every row has the cells of one section. */
  lemma {:induction false} CellsFromCount(src: seq<int>, dims: seq<nat>, offs: seq<nat>, p: nat, i: nat)
    requires Readable(src, dims, offs, p) && i < dims[0]
    ensures Valid(DimBox(dims)) && Valid(DimBox(dims[1..]))
    ensures |CellsFrom(src, dims, offs, p, i)| == (dims[0] - i) * CellCount(DimBox(dims[1..]))
    decreases |dims|, dims[0] - i, 1
  {
    hide Readable, CellCount, Reach, RowCells;
    ReadableDims(src, dims, offs, p);
    RowCount(src, dims, offs, p, i);
    var n, c := dims[0], CellCount(DimBox(dims[1..]));
    assert (n - i) * c == c + (n - (i + 1)) * c;
    if i < dims[0] - 1 { CellsFromCount(src, dims, offs, p, i + 1); }
  }

  /** Rows follow one another: cell k of row j is number m from row i on. */
  lemma {:induction false} CellsFromAt(src: seq<int>, dims: seq<nat>, offs: seq<nat>, p: nat, i: nat, j: nat,
                                       c: nat, k: nat, m: nat)
    requires Readable(src, dims, offs, p) && i <= j < dims[0]
    requires c == |RowCells(src, dims, offs, p, j)| && k < c && m == (j - i) * c + k
    ensures m < |CellsFrom(src, dims, offs, p, i)|
    ensures CellsFrom(src, dims, offs, p, i)[m] == RowCells(src, dims, offs, p, j)[k]
    decreases dims[0] - i
  {
    hide Readable, RowCells;
    if j == i {
      FirstRow(src, dims, offs, p, i, k);
    } else {
      RowStep(i, j, c, k, m);
      SameCount(src, dims, offs, p, i, j);
      CellsFromAt(src, dims, offs, p, i + 1, j, c, k, m - c);
      SkipRow(RowCells(src, dims, offs, p, i), CellsFrom(src, dims, offs, p, i + 1), m - c);
    }
  }

  lemma FirstRow(src: seq<int>, dims: seq<nat>, offs: seq<nat>, p: nat, i: nat, k: nat)
    requires Readable(src, dims, offs, p) && i < dims[0] && k < |RowCells(src, dims, offs, p, i)|
    ensures k < |CellsFrom(src, dims, offs, p, i)| && CellsFrom(src, dims, offs, p, i)[k] == RowCells(src, dims, offs, p, i)[k]
  {
    hide Readable, RowCells;
  }

  lemma SameCount(src: seq<int>, dims: seq<nat>, offs: seq<nat>, p: nat, i: nat, j: nat)
    requires Readable(src, dims, offs, p) && i < dims[0] && j < dims[0]
    ensures |RowCells(src, dims, offs, p, i)| == |RowCells(src, dims, offs, p, j)|
  {
    RowCount(src, dims, offs, p, i);
    RowCount(src, dims, offs, p, j);
  }

  lemma SkipRow(row: seq<int>, tail: seq<int>, k: nat)
    requires k < |tail|
    ensures (row + tail)[|row| + k] == tail[k]
  {
  }

  lemma ReadableDims(src: seq<int>, dims: seq<nat>, offs: seq<nat>, p: nat)
    requires Readable(src, dims, offs, p)
    ensures |dims| == |offs| >= 1 && forall i :: 0 <= i < |dims| ==> dims[i] >= 1
  {
  }

  lemma {:induction false} RowCount(src: seq<int>, dims: seq<nat>, offs: seq<nat>, p: nat, i: nat)
    requires Readable(src, dims, offs, p) && i < dims[0]
    ensures Valid(DimBox(dims[1..])) && |RowCells(src, dims, offs, p, i)| == CellCount(DimBox(dims[1..]))
    decreases |dims|, dims[0] - i, 0
  {
    ReadableRow(src, dims, offs, p, i);
    if |dims| > 1 {
      CellsFromCount(src, dims[1..], offs[1..], p + i * offs[0], 0);
      DimBoxRest(dims[1..]);
    }
  }

  /** Coordinate x of the printed section is the cell at p + x . offs. */
  lemma {:induction false} CellAt(src: seq<int>, dims: seq<nat>, offs: seq<nat>, p: nat, x: Point)
    requires Readable(src, dims, offs, p) && Valid(DimBox(dims)) && Covers(DimBox(dims), x)
    ensures |Cells(src, dims, offs, p)| == CellCount(DimBox(dims))
    ensures 0 <= Offset(DimBox(dims), x) < |Cells(src, dims, offs, p)| && 0 <= p + Dot(x, offs) < |src|
    ensures Cells(src, dims, offs, p)[Offset(DimBox(dims), x)] == src[p + Dot(x, offs)]
    decreases |dims|
  {
    hide Readable, Reach, RowCells, CellsFrom;
    ReadableDims(src, dims, offs, p);
    var j, rest := x[0], x[1..];
    assert DimBox(dims)[0].Has(j);
    DimBoxRest(dims);
    assert Covers(DimBox(dims[1..]), rest);
    OffsetBound(DimBox(dims), x);
    OffsetBound(DimBox(dims[1..]), rest);
    var k := Offset(DimBox(dims[1..]), rest);
    ReadableRow(src, dims, offs, p, j);
    RowCellAt(src, dims, offs, p, j, rest);
    CellsFromCount(src, dims, offs, p, 0);
    CellsFromAt(src, dims, offs, p, 0, j, CellCount(DimBox(dims[1..])), k, Offset(DimBox(dims), x));
  }

  lemma {:induction false} RowCellAt(src: seq<int>, dims: seq<nat>, offs: seq<nat>, p: nat, j: nat, rest: Point)
    requires Readable(src, dims, offs, p) && j < dims[0]
    requires Valid(DimBox(dims[1..])) && Covers(DimBox(dims[1..]), rest)
    ensures |RowCells(src, dims, offs, p, j)| == CellCount(DimBox(dims[1..]))
    ensures 0 <= Offset(DimBox(dims[1..]), rest) < |RowCells(src, dims, offs, p, j)|
    ensures 0 <= p + j * offs[0] + Dot(rest, offs[1..]) < |src|
    ensures RowCells(src, dims, offs, p, j)[Offset(DimBox(dims[1..]), rest)] == src[p + j * offs[0] + Dot(rest, offs[1..])]
    decreases |dims|, 0
  {
    hide Reach, CellsFrom;
    ReadableRow(src, dims, offs, p, j);
    RowCount(src, dims, offs, p, j);
    OffsetBound(DimBox(dims[1..]), rest);
    if |dims| > 1 {
      CellAt(src, dims[1..], offs[1..], p + j * offs[0], rest);
    }
  }

  // ---------- the two orders ----------

  /** The offsets `convertTo` computes: cells between neighbours along each axis. */
  function RowMajor(dims: seq<nat>): (offs: seq<nat>)
    ensures |offs| == |dims|
  {
    if dims == [] then []
    else if |dims| == 1 then [1]
    else var rest := RowMajor(dims[1..]); [rest[0] * dims[1]] + rest
  }

  predicate Positive(dims: seq<nat>) { dims != [] && forall i :: 0 <= i < |dims| ==> dims[i] >= 1 }

  lemma {:induction false} RowMajorHead(dims: seq<nat>)
    requires Positive(dims)
    ensures Valid(DimBox(dims[1..])) && RowMajor(dims)[0] == CellCount(DimBox(dims[1..]))
  {
    if |dims| > 1 {
      RowMajorHead(dims[1..]);
      DimBoxRest(dims[1..]);
      var c := CellCount(DimBox(dims[1..][1..]));
      assert CellCount(DimBox(dims[1..])) == dims[1] * c;
      assert dims[1] * c == c * dims[1];
    }
  }

  /** Stepping by row-major offsets is the row-major numbering. */
  lemma {:induction false} RowMajorDot(dims: seq<nat>, x: Point)
    requires Positive(dims) && Covers(DimBox(dims), x)
    ensures Valid(DimBox(dims)) && Dot(x, RowMajor(dims)) == Offset(DimBox(dims), x)
  {
    RowMajorHead(dims);
    DimBoxRest(dims);
    if |dims| > 1 {
      RowMajorDot(dims[1..], x[1..]);
      assert RowMajor(dims)[1..] == RowMajor(dims[1..]);
    } else {
      assert RowMajor(dims)[1..] == [] && x[1..] == [];
    }
  }

  function Tops(dims: seq<nat>): (x: seq<int>)
    ensures |x| == |dims|
  {
    seq(|dims|, i requires 0 <= i < |dims| => dims[i] as int - 1)
  }

  lemma {:induction false} ReachIsDot(dims: seq<nat>, offs: seq<nat>)
    requires |dims| == |offs| && forall i :: 0 <= i < |dims| ==> dims[i] >= 1
    ensures Reach(dims, offs) == Dot(Tops(dims), offs)
  {
    if dims != [] {
      ReachIsDot(dims[1..], offs[1..]);
      assert Tops(dims)[1..] == Tops(dims[1..]);
    }
  }

  lemma RowMajorReadable(src: seq<int>, dims: seq<nat>)
    requires Positive(dims) && Valid(DimBox(dims)) && |src| >= CellCount(DimBox(dims))
    ensures Readable(src, dims, RowMajor(dims), 0)
  {
    ReachIsDot(dims, RowMajor(dims));
    var top := Tops(dims);
    assert Covers(DimBox(dims), top);
    RowMajorDot(dims, top);
    OffsetBound(DimBox(dims), top);
  }

  function Reverse<T>(s: seq<T>): (r: seq<T>)
    ensures |r| == |s|
    ensures forall i :: 0 <= i < |s| ==> r[i] == s[|s| - 1 - i]
  {
    if s == [] then [] else Reverse(s[1..]) + [s[0]]
  }

  lemma {:induction false} DotAppend(x: seq<int>, offs: seq<nat>, a: int, b: nat)
    requires |x| == |offs|
    ensures Dot(x + [a], offs + [b]) == Dot(x, offs) + a * b
  {
    if x == [] {
      assert (x + [a])[1..] == [] && (offs + [b])[1..] == [];
    } else {
      assert (x + [a])[1..] == x[1..] + [a] && (offs + [b])[1..] == offs[1..] + [b];
      DotAppend(x[1..], offs[1..], a, b);
    }
  }

  lemma {:induction false} DotReverse(x: seq<int>, offs: seq<nat>)
    requires |x| == |offs|
    ensures Dot(Reverse(x), Reverse(offs)) == Dot(x, offs)
  {
    if x != [] {
      DotReverse(x[1..], offs[1..]);
      DotAppend(Reverse(x[1..]), Reverse(offs[1..]), x[0], offs[0]);
    }
  }

  lemma {:induction false} CountReverse(dims: seq<nat>)
    requires forall i :: 0 <= i < |dims| ==> dims[i] >= 1
    ensures Valid(DimBox(dims)) && Valid(DimBox(Reverse(dims)))
    ensures CellCount(DimBox(Reverse(dims))) == CellCount(DimBox(dims))
  {
    if dims != [] {
      CountReverse(dims[1..]);
      DimBoxRest(dims);
      var b := DimBox(Reverse(dims));
      assert b[..|b| - 1] == DimBox(Reverse(dims[1..])) && b[|b| - 1].Extent() == dims[0];
      CellCountSplit(b);
      assert CellCount(b[..|b| - 1]) * dims[0] == dims[0] * CellCount(b[..|b| - 1]);
    }
  }

  lemma ReversedReadable(src: seq<int>, dims: seq<nat>)
    requires Positive(dims) && Valid(DimBox(dims)) && |src| >= CellCount(DimBox(dims))
    ensures Readable(src, Reverse(dims), Reverse(RowMajor(dims)), 0)
  {
    RowMajorReadable(src, dims);
    var offs := RowMajor(dims);
    ReachIsDot(dims, offs);
    ReachIsDot(Reverse(dims), Reverse(offs));
    assert Tops(Reverse(dims)) == Reverse(Tops(dims));
    DotReverse(Tops(dims), offs);
  }

  /** Order `outer_inner`: writing an array of any rank and reading it back gives the array. */
  lemma OuterInnerRoundTrip(st: Style, src: seq<int>, dims: seq<nat>, t: IntType)
    requires KnownStyle(st) && t.Ok() && AllIn(src, t) && Positive(dims)
    requires Valid(DimBox(dims)) && |src| == CellCount(DimBox(dims))
    ensures Readable(src, dims, RowMajor(dims), 0)
    ensures Decode(Text(st, src, dims, RowMajor(dims)), |src|, t) == Some(src)
  {
    hide Decode, Text, Readable, CellCount, Cells, Offset, Dot, RowMajor;
    RowMajorReadable(src, dims);
    var b, offs := DimBox(dims), RowMajor(dims);
    var cs := Cells(src, dims, offs, 0);
    DecodeText(st, src, dims, offs, t);
    PointAtCovered(b, 0);
    CellAt(src, dims, offs, 0, PointAt(b, 0));
    forall k | 0 <= k < |src| ensures |cs| == |src| && cs[k] == src[k] {
      OffsetOfPointAt(b, k);
      CellAt(src, dims, offs, 0, PointAt(b, k));
      RowMajorDot(dims, PointAt(b, k));
    }
    assert cs == src;
  }

  /** Order `inner_outer`: what is read back is the array with its axes reversed. */
  lemma InnerOuterTransposes(st: Style, src: seq<int>, dims: seq<nat>, t: IntType)
    requires KnownStyle(st) && t.Ok() && AllIn(src, t) && Positive(dims)
    requires Valid(DimBox(dims)) && |src| == CellCount(DimBox(dims))
    ensures var d, o := Reverse(dims), Reverse(RowMajor(dims));
            && Readable(src, d, o, 0) && Valid(DimBox(d))
            && Decode(Text(st, src, d, o), |src|, t).Some?
            && var cs := Decode(Text(st, src, d, o), |src|, t).value;
               |cs| == |src| == CellCount(DimBox(d)) &&
               forall x :: Covers(DimBox(dims), x) ==>
                 && Covers(DimBox(d), Reverse(x))
                 && 0 <= Offset(DimBox(d), Reverse(x)) < |cs| && 0 <= Offset(DimBox(dims), x) < |src|
                 && cs[Offset(DimBox(d), Reverse(x))] == src[Offset(DimBox(dims), x)]
  {
    hide Decode, Text, Readable, CellCount, Cells, Offset, Dot, RowMajor;
    ReversedReadable(src, dims);
    var d, o := Reverse(dims), Reverse(RowMajor(dims));
    CountReverse(dims);
    var cs := Cells(src, d, o, 0);
    DecodeText(st, src, d, o, t);
    PointAtCovered(DimBox(d), 0);
    CellAt(src, d, o, 0, PointAt(DimBox(d), 0));
    forall x | Covers(DimBox(dims), x)
      ensures && Covers(DimBox(d), Reverse(x))
              && 0 <= Offset(DimBox(d), Reverse(x)) < |cs| && 0 <= Offset(DimBox(dims), x) < |src|
              && cs[Offset(DimBox(d), Reverse(x))] == src[Offset(DimBox(dims), x)]
    {
      ReversedCell(src, dims, d, o, x);
    }
  }

  lemma ReversedCell(src: seq<int>, dims: seq<nat>, d: seq<nat>, o: seq<nat>, x: Point)
    requires Positive(dims) && d == Reverse(dims) && o == Reverse(RowMajor(dims))
    requires Readable(src, d, o, 0) && Covers(DimBox(dims), x)
    ensures Valid(DimBox(dims)) && Valid(DimBox(d)) && Covers(DimBox(d), Reverse(x))
    ensures 0 <= Offset(DimBox(d), Reverse(x)) < |Cells(src, d, o, 0)| && 0 <= Offset(DimBox(dims), x) < |src|
    ensures Cells(src, d, o, 0)[Offset(DimBox(d), Reverse(x))] == src[Offset(DimBox(dims), x)]
  {
    hide Readable, CellCount, Cells, Offset, Dot, RowMajor;
    CountReverse(dims);
    forall i | 0 <= i < |d| ensures DimBox(d)[i].Has(Reverse(x)[i]) {
      assert DimBox(dims)[|d| - 1 - i].Has(x[|d| - 1 - i]);
    }
    CellAt(src, d, o, 0, Reverse(x));
    DotReverse(x, RowMajor(dims));
    RowMajorDot(dims, x);
  }

  // ---------- nesting ----------

  /**
   Reads a text as nested delimiters from depth d: the depth at the end, or nothing if a delimiter is
   unbalanced, nests deeper than `leaf`, or a number stands at any other depth than `leaf`.
   */
  function Nest(st: Style, s: string, d: nat, leaf: nat): Option<nat> {
    if s == "" then Some(d)
    else if s[0] == st.left then if d < leaf then Nest(st, s[1..], d + 1, leaf) else None
    else if s[0] == st.right then if d > 0 then Nest(st, s[1..], d - 1, leaf) else None
    else if s[0] == ',' then Nest(st, s[1..], d, leaf)
    else if (IsDigit(s[0]) || s[0] == '-') && d == leaf then Nest(st, s[1..], d, leaf)
    else None
  }

  predicate NumberChars(s: string) { forall i :: 0 <= i < |s| ==> IsDigit(s[i]) || s[i] == '-' }

  lemma {:induction false} NestNumber(st: Style, n: string, rest: string, leaf: nat)
    requires KnownStyle(st) && NumberChars(n)
    ensures Nest(st, n + rest, leaf, leaf) == Nest(st, rest, leaf, leaf)
  {
    if n == "" {
      assert n + rest == rest;
    } else {
      assert (n + rest)[0] == n[0] && (n + rest)[1..] == n[1..] + rest;
      NestNumber(st, n[1..], rest, leaf);
    }
  }

  lemma NestOne(st: Style, c: char, rest: string, d: nat, leaf: nat)
    requires KnownStyle(st)
    ensures c == ',' ==> Nest(st, [c] + rest, d, leaf) == Nest(st, rest, d, leaf)
    ensures c == st.left && d < leaf ==> Nest(st, [c] + rest, d, leaf) == Nest(st, rest, d + 1, leaf)
    ensures c == st.right && d > 0 ==> Nest(st, [c] + rest, d, leaf) == Nest(st, rest, d - 1, leaf)
  {
    assert ([c] + rest)[1..] == rest;
  }

  lemma {:induction false} NestRow(st: Style, src: seq<int>, dims: seq<nat>, offs: seq<nat>, p: nat, i: nat, rest: string, d: nat)
    requires KnownStyle(st) && Readable(src, dims, offs, p) && i < dims[0]
    ensures Nest(st, PrintRow(st, src, dims, offs, p, i) + rest, d, d + |dims| - 1) == Nest(st, rest, d, d + |dims| - 1)
    decreases |dims|, dims[0] - i, 0
  {
    hide Nest, Readable, Reach, Dec;
    PositiveRows(src, dims, offs, p);
    ReadableRow(src, dims, offs, p, i);
    var q := p + i * offs[0];
    if |dims| == 1 {
      NestNumber(st, Dec(src[q]), rest, d);
    } else {
      var inner, leaf := Print(st, src, dims[1..], offs[1..], q), d + |dims| - 1;
      assert PrintRow(st, src, dims, offs, p, i) + rest == [st.left] + (inner + ([st.right] + rest));
      NestOne(st, st.left, inner + ([st.right] + rest), d, leaf);
      PositiveRows(src, dims[1..], offs[1..], q);
      NestFrom(st, src, dims[1..], offs[1..], q, 0, [st.right] + rest, d + 1);
      NestOne(st, st.right, rest, d + 1, leaf);
    }
  }

  lemma {:induction false} NestFrom(st: Style, src: seq<int>, dims: seq<nat>, offs: seq<nat>, p: nat, i: nat, rest: string, d: nat)
    requires KnownStyle(st) && Readable(src, dims, offs, p) && i < dims[0]
    ensures Nest(st, PrintFrom(st, src, dims, offs, p, i) + rest, d, d + |dims| - 1) == Nest(st, rest, d, d + |dims| - 1)
    decreases |dims|, dims[0] - i, 1
  {
    hide Nest, PrintRow, Readable;
    PositiveRows(src, dims, offs, p);
    if i < dims[0] - 1 {
      var tail := PrintFrom(st, src, dims, offs, p, i + 1) + rest;
      assert PrintFrom(st, src, dims, offs, p, i) + rest == PrintRow(st, src, dims, offs, p, i) + ("," + tail);
      NestRow(st, src, dims, offs, p, i, "," + tail, d);
      NestOne(st, ',', tail, d, d + |dims| - 1);
      NestFrom(st, src, dims, offs, p, i + 1, rest, d);
    } else {
      NestRow(st, src, dims, offs, p, i, rest, d);
    }
  }

  /** How deep the numbers stand: the rank in JSON, one less in CSV from rank two on. */
  function LeafDepth(st: Style, rank: nat): nat
    requires rank >= 1
  {
    if rank == 1 || st.outer then rank else rank - 1
  }

  /** The delimiters of a written array balance, and every number stands at the leaf depth. */
  lemma TextNesting(st: Style, src: seq<int>, dims: seq<nat>, offs: seq<nat>)
    requires KnownStyle(st) && Readable(src, dims, offs, 0)
    ensures Nest(st, Text(st, src, dims, offs), 0, LeafDepth(st, |dims|)) == Some(0)
    ensures st.left == (if st.outer then '[' else '{') && st.right == (if st.outer then ']' else '}')
  {
    hide PrintFrom, Readable;
    PositiveRows(src, dims, offs, 0);
    var body, leaf := Print(st, src, dims, offs, 0), LeafDepth(st, |dims|);
    if |dims| == 1 || st.outer {
      assert Text(st, src, dims, offs) == [st.left] + (body + [st.right]);
      NestOne(st, st.left, body + [st.right], 0, leaf);
      NestFrom(st, src, dims, offs, 0, 0, [st.right], 1);
      NestOne(st, st.right, "", 1, leaf);
      assert [st.right] + "" == [st.right];
    } else {
      assert body + "" == body;
      NestFrom(st, src, dims, offs, 0, 0, "", 0);
    }
  }

  /** Two rows of two cells, in both formats. */
  lemma TextExample(src: seq<int>)
    requires |src| == 4
    ensures Readable(src, [2, 2], [2, 1], 0)
    ensures Text(CSV, src, [2, 2], [2, 1]) ==
            "{" + (Dec(src[0]) + ("," + Dec(src[1])) + "}") + ("," + ("{" + (Dec(src[2]) + ("," + Dec(src[3])) + "}")))
    ensures Text(JSON, src, [2, 2], [2, 1]) ==
            "[" + ("[" + (Dec(src[0]) + ("," + Dec(src[1])) + "]") + ("," + ("[" + (Dec(src[2]) + ("," + Dec(src[3])) + "]")))) + "]"
  {
    hide Dec, Print;
    assert [2, 2][1..] == [2] && [2, 1][1..] == [1] && [2][1..] == [] && [1][1..] == [];
    assert Reach([], []) == 0 && Reach([2], [1]) == 1 && Reach([2, 2], [2, 1]) == 3;
    TwoRows(CSV, src);
    TwoRows(JSON, src);
  }

  /** Numbers of one and two digits, and a negative one. */
  lemma DecExamples()
    ensures Dec(0) == "0" && Dec(7) == "7" && Dec(23) == "23" && Dec(-4) == "-4"
  {
    assert DecNat(2) == "2" && DecNat(4) == "4" && DecNat(23) == "2" + "3";
  }

  lemma TwoRows(st: Style, src: seq<int>)
    requires |src| == 4 && Readable(src, [2, 2], [2, 1], 0)
    ensures Print(st, src, [2, 2], [2, 1], 0) ==
            [st.left] + (Dec(src[0]) + ("," + Dec(src[1])) + [st.right]) + ("," + ([st.left] + (Dec(src[2]) + ("," + Dec(src[3])) + [st.right])))
  {
    hide Dec, Print, PrintFrom, PrintRow;
    assert [2, 2][1..] == [2] && [2, 1][1..] == [1];
    OneRow(st, src, 0);
    OneRow(st, src, 2);
    Unfolded(st, src, [2, 2], [2, 1], 0, 0);
    Unfolded(st, src, [2, 2], [2, 1], 0, 1);
    PrintIs(st, src, [2, 2], [2, 1], 0);
  }

  lemma OneRow(st: Style, src: seq<int>, p: nat)
    requires |src| == 4 && p <= 2
    ensures Readable(src, [2], [1], p) && Print(st, src, [2], [1], p) == Dec(src[p]) + ("," + Dec(src[p + 1]))
  {
    hide Dec, Print, PrintFrom, PrintRow;
    assert [2][1..] == [] && [1][1..] == [] && Reach([], []) == 0 && Reach([2], [1]) == 1;
    Unfolded(st, src, [2], [1], p, 0);
    Unfolded(st, src, [2], [1], p, 1);
    PrintIs(st, src, [2], [1], p);
  }

  lemma PrintIs(st: Style, src: seq<int>, dims: seq<nat>, offs: seq<nat>, p: nat)
    requires Readable(src, dims, offs, p)
    ensures Print(st, src, dims, offs, p) == PrintFrom(st, src, dims, offs, p, 0)
  {
  }

  // ---------- the loops of the converter ----------

  lemma Unfolded(st: Style, src: seq<int>, dims: seq<nat>, offs: seq<nat>, p: nat, i: nat)
    requires Readable(src, dims, offs, p) && i < dims[0]
    ensures 0 <= p + i * offs[0] < |src| && (|dims| > 1 ==> Readable(src, dims[1..], offs[1..], p + i * offs[0]))
    ensures |dims| == 1 ==> PrintRow(st, src, dims, offs, p, i) == Dec(src[p + i * offs[0]])
    ensures |dims| > 1 ==> PrintRow(st, src, dims, offs, p, i)
                           == [st.left] + (Print(st, src, dims[1..], offs[1..], p + i * offs[0]) + [st.right])
    ensures i < dims[0] - 1 ==> PrintFrom(st, src, dims, offs, p, i)
                                == PrintRow(st, src, dims, offs, p, i) + ("," + PrintFrom(st, src, dims, offs, p, i + 1))
    ensures i == dims[0] - 1 ==> PrintFrom(st, src, dims, offs, p, i) == PrintRow(st, src, dims, offs, p, i)
  {
    hide Readable, Reach, Dec;
    PositiveRows(src, dims, offs, p);
    ReadableRow(src, dims, offs, p, i);
  }

  lemma NextRow(i: int, c: int)
    ensures (i + 1) * c == i * c + c
  {
  }

  class Converter {
    const st: Style
    var f: string   // the stream written so far

    constructor (st: Style)
      ensures this.st == st && f == ""
    {
      this.st, f := st, "";
    }

    /** `printArray`: a loop over the first axis, recursive in the others. */
    method PrintArray(src: seq<int>, dims: seq<nat>, offs: seq<nat>, ptr: nat)
      requires Readable(src, dims, offs, ptr)
      modifies this
      ensures f == old(f) + Print(st, src, dims, offs, ptr)
      decreases |dims|
    {
      hide Readable, Reach, Dec, PrintFrom, PrintRow;
      PositiveRows(src, dims, offs, ptr);
      ghost var all := old(f) + Print(st, src, dims, offs, ptr);
      var p := ptr;
      for i := 0 to dims[0]
        invariant p == ptr + i * offs[0]
        invariant if i < dims[0] then f + PrintFrom(st, src, dims, offs, ptr, i) == all else f == all
      {
        ReadableRow(src, dims, offs, ptr, i);
        ghost var before := f;
        if |dims| == 1 {
          f := f + Dec(src[p]);
        } else {
          f := f + [st.left];
          PrintArray(src, dims[1..], offs[1..], p);
          f := f + [st.right];
        }
        assert f == before + PrintRow(st, src, dims, offs, ptr, i) by {
          Unfolded(st, src, dims, offs, ptr, i);
        }
        if i < dims[0] - 1 { f := f + ","; }
        Unfolded(st, src, dims, offs, ptr, i);
        p := p + offs[0];
        NextRow(i, offs[0]);
      }
    }

    /** The part of `convertTo` that fills the offsets, back to front. */
    method RowMajorOffsets(dims: seq<nat>) returns (offs: seq<nat>)
      requires dims != []
      ensures offs == RowMajor(dims)
    {
      offs := seq(|dims|, _ => 1);
      var i := |dims| - 1;
      while i > 0
        invariant 0 <= i < |dims| == |offs|
        invariant offs[i..] == RowMajor(dims[i..])
      {
        assert dims[i - 1..][1..] == dims[i..];
        ghost var tail := offs[i..];
        offs := offs[i - 1 := offs[i] * dims[i]];
        assert offs[i - 1..] == [tail[0] * dims[i]] + tail;
        i := i - 1;
      }
      assert dims[0..] == dims && offs[0..] == offs;
    }

    /** `convertTo` */
    method ConvertTo(src: seq<int>, dims: seq<nat>, innerOuter: bool) returns (text: string)
      requires Positive(dims) && Valid(DimBox(dims)) && |src| >= CellCount(DimBox(dims))
      requires f == ""
      modifies this
      ensures var d, o := if innerOuter then Reverse(dims) else dims, if innerOuter then Reverse(RowMajor(dims)) else RowMajor(dims);
              Readable(src, d, o, 0) && text == Text(st, src, d, o)
    {
      hide Readable, Print, RowMajor, CellCount;
      var offsets := RowMajorOffsets(dims);
      var dimsizes := dims;
      RowMajorReadable(src, dims);
      ReversedReadable(src, dims);
      if innerOuter { dimsizes, offsets := Reverse(dimsizes), Reverse(offsets); }
      if |dims| == 1 || st.outer { f := f + [st.left]; }
      PrintArray(src, dimsizes, offsets, 0);
      if |dims| == 1 || st.outer { f := f + [st.right]; }
      text := f;
    }
  }

  /** `constructPrimitive`: skips delimiters, stores values, and checks how many there were. */
  method ConstructPrimitive(dest: array<int>, src: string, numElem: nat, t: IntType) returns (ok: bool)
    requires t.Ok() && numElem <= dest.Length
    modifies dest
    ensures ok <==> Decode(src, numElem, t).Some?
    ensures ok ==> dest[..numElem] == Decode(src, numElem, t).value
  {
    hide ReadInt, IsValidCharacter;
    var str, countVal, good := src, 0, true;
    while good && str != "" && countVal < numElem
      invariant countVal <= numElem
      invariant dest[..countVal] + (if good then Scan(str, numElem - countVal, t) else []) == Scan(src, numElem, t)
      decreases good, |str|
    {
      if IsValidCharacter(str[0]) {
        var r := ReadInt(str, t);
        dest[countVal] := r.value;
        countVal := countVal + 1;
        str, good := r.rest, r.ok;
      } else {
        str := str[1..];
      }
    }
    ok := countVal == numElem;
  }
}

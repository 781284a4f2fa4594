/**
 The band layout of the GDAL converter: a pixel-interleaved array, with y varying fastest, is split into row-major
 bands and put together again.

 A cell value is its bytes in memory. Bands are what the GDAL library holds or reads for the requested window.
 */
module Gdal {
  import opened Prelude
  import opened Boxes

  type Cell = seq<byte>

  /** The picture has width x height pixels; pixel number n of the array is column n / height, row n % height. */
  datatype Size = Size(width: nat, height: nat) {
    predicate Ok() { width >= 1 && height >= 1 }
    function Pixels(): (n: nat)
      requires Ok()
      ensures n >= 1
    {
      MulAtLeast(width, 1, height);
      width * height
    }
    /** Where a band, which is row-major, holds pixel n of the array. */
    function InBand(n: int): int
      requires Ok()
    {
      n % height * width + n / height
    }
    /** Which pixel of the array is number k of a band. */
    function InArray(k: int): int
      requires Ok()
    {
      k / width + height * (k % width)
    }
  }

  lemma InBandBound(sz: Size, n: nat)
    requires sz.Ok() && n < sz.Pixels()
    ensures 0 <= sz.InBand(n) < sz.Pixels()
    ensures sz.InBand(n) / sz.width == n % sz.height && sz.InBand(n) % sz.width == n / sz.height
    ensures sz.InArray(sz.InBand(n)) == n
  {
    var w, h := sz.width, sz.height;
    DivBounds(n, h);
    QuotientBound(n, w, h);
    PairBound(n % h, n / h, h, w);
    MulMono(0, n % h, w);
    assert h * w == w * h;
    DivUnique(sz.InBand(n), w, n % h, n / h);
    assert h * (n / h) == (n / h) * h;
  }

  // ---------- encoding ----------

  /** `col_offset`, a 32-bit unsigned integer. */
  function ColOffset(sz: Size, numBands: nat, row: nat, col: nat): int { (row + sz.height * col) * numBands % WORD }

  /** A boolean band is written as 0 and 255. */
  function Converted(c: Cell, isBoolean: bool): Cell {
    if isBoolean then if c == [1] then [255] else [0] else c
  }

  lemma OffsetInSource(sz: Size, numBands: nat, band: nat, row: nat, col: nat)
    requires sz.Ok() && row < sz.height && col < sz.width && band < numBands
    ensures 0 <= ColOffset(sz, numBands, row, col) <= (row + sz.height * col) * numBands
    ensures (row + sz.height * col) * numBands + band < sz.Pixels() * numBands
  {
    assert sz.height * col == col * sz.height;
    PairBound(col, row, sz.width, sz.height);
    MulMono(0, col, sz.height);
    PairBound(row + sz.height * col, band, sz.Pixels(), numBands);
    MulMono(0, row + sz.height * col, numBands);
  }

  /** Band number `band` as `encodeImage` writes it. */
  function EncodedBand(src: seq<Cell>, sz: Size, numBands: nat, band: nat, isBoolean: bool): (r: seq<Cell>)
    requires sz.Ok() && band < numBands && |src| == sz.Pixels() * numBands
    ensures |r| == sz.Pixels()
  {
    seq(sz.Pixels(), k requires 0 <= k < sz.Pixels() =>
      DivBounds(k, sz.width); RowBound(sz, k);
      OffsetInSource(sz, numBands, band, k / sz.width, k % sz.width);
      Converted(src[ColOffset(sz, numBands, k / sz.width, k % sz.width) + band], isBoolean))
  }

  lemma RowBound(sz: Size, k: nat)
    requires sz.Ok() && k < sz.Pixels()
    ensures k / sz.width < sz.height
  {
    assert sz.width * sz.height == sz.height * sz.width;
    QuotientBound(k, sz.height, sz.width);
  }

  /** The offset is the pixel's for every pixel exactly when the last one is below 2^32. */
  lemma OffsetsExactIff(sz: Size, numBands: nat)
    requires sz.Ok()
    ensures (forall row: nat, col: nat :: row < sz.height && col < sz.width ==>
               ColOffset(sz, numBands, row, col) == (row + sz.height * col) * numBands)
            <==> (sz.Pixels() - 1) * numBands < WORD
  {
    var last := (sz.Pixels() - 1) * numBands;
    if last < WORD {
      forall row: nat, col: nat | row < sz.height && col < sz.width
        ensures ColOffset(sz, numBands, row, col) == (row + sz.height * col) * numBands
      {
        assert sz.height * col == col * sz.height;
        PairBound(col, row, sz.width, sz.height);
        MulMono(0, col, sz.height);
        MulMono(row + sz.height * col, sz.Pixels() - 1, numBands);
        MulMono(0, row + sz.height * col, numBands);
      }
    } else {
      var row, col := sz.height - 1, sz.width - 1;
      assert sz.height * col == sz.width * sz.height - sz.height;
      assert (row + sz.height * col) * numBands == last;
      assert ColOffset(sz, numBands, row, col) < WORD;
    }
  }

  /** Two bands of 65536 x 65536 pixels: the last pixel is read from another place. */
  lemma OffsetWrapExample()
    ensures var sz := Size(65536, 65536);
            && sz.Ok() && (sz.Pixels() - 1) * 2 >= WORD
            && ColOffset(sz, 2, 65535, 65535) == WORD - 2 != (65535 + sz.height * 65535) * 2
  {
  }

  lemma NextPixel(sz: Size, row: nat, col: nat)
    requires sz.Ok() && row < sz.height && col < sz.width
    ensures 0 <= row * sz.width && row * sz.width + col < sz.Pixels() && (row + 1) * sz.width == row * sz.width + sz.width
    ensures (row * sz.width + col) / sz.width == row && (row * sz.width + col) % sz.width == col
  {
    MulMono(0, row, sz.width);
    PairBound(row, col, sz.height, sz.width);
    assert sz.width * sz.height == sz.height * sz.width;
    DivUnique(row * sz.width + col, sz.width, row, col);
  }

  lemma RowsDone(sz: Size)
    requires sz.Ok()
    ensures sz.height * sz.width == sz.Pixels() && 0 * sz.width == 0
  {
  }

  /** The loops of `encodeImage` over the pixels of one band. */
  method EncodeBand(src: array<Cell>, dst: array<Cell>, sz: Size, numBands: nat, band: nat, isBoolean: bool)
    requires sz.Ok() && band < numBands && src != dst
    requires src.Length == sz.Pixels() * numBands && dst.Length == sz.Pixels()
    modifies dst
    ensures dst[..] == EncodedBand(src[..], sz, numBands, band, isBoolean)
  {
    hide Size.Pixels;
    ghost var all := EncodedBand(src[..], sz, numBands, band, isBoolean);
    RowsDone(sz);
    var pos := 0;
    for row := 0 to sz.height
      invariant pos == row * sz.width <= dst.Length && dst[..pos] == all[..pos]
    {
      NextPixel(sz, row, 0);
      for col := 0 to sz.width
        invariant pos == row * sz.width + col <= dst.Length && dst[..pos] == all[..pos]
      {
        NextPixel(sz, row, col);
        OffsetInSource(sz, numBands, band, row, col);
        var colOffset := ColOffset(sz, numBands, row, col);
        if !isBoolean {
          dst[pos] := src[colOffset + band];
        } else if src[colOffset + band] == [1] {
          dst[pos] := [255];
        } else {
          dst[pos] := [0];
        }
        assert dst[pos] == all[pos];
        pos := pos + 1;
      }
    }
  }

  /** `encodeImage`: all bands, one after the other, through one buffer. */
  method EncodeImage(src: array<Cell>, sz: Size, numBands: nat, isBoolean: bool) returns (bands: seq<seq<Cell>>)
    requires sz.Ok() && src.Length == sz.Pixels() * numBands
    ensures |bands| == numBands
    ensures forall b :: 0 <= b < numBands ==> bands[b] == EncodedBand(src[..], sz, numBands, b, isBoolean)
  {
    hide EncodedBand;
    var dstCells := new Cell[sz.Pixels()](_ => []);
    bands := [];
    for band := 0 to numBands
      invariant |bands| == band
      invariant forall b :: 0 <= b < band ==> bands[b] == EncodedBand(src[..], sz, numBands, b, isBoolean)
    {
      EncodeBand(src, dstCells, sz, numBands, band, isBoolean);
      bands := bands + [dstCells[..]];
    }
  }

  /** Each band of an encoded array holds the array's cells, at the pixels' places in the band. */
  lemma EncodedCell(src: seq<Cell>, sz: Size, numBands: nat, band: nat, isBoolean: bool, n: nat)
    requires sz.Ok() && band < numBands && |src| == sz.Pixels() * numBands && n < sz.Pixels()
    requires (sz.Pixels() - 1) * numBands < WORD
    ensures 0 <= sz.InBand(n) < sz.Pixels() && 0 <= n * numBands + band < |src|
    ensures EncodedBand(src, sz, numBands, band, isBoolean)[sz.InBand(n)] == Converted(src[n * numBands + band], isBoolean)
  {
    InBandBound(sz, n);
    DivBounds(sz.InBand(n), sz.width);
    RowBound(sz, sz.InBand(n));
    OffsetsExactIff(sz, numBands);
    OffsetInSource(sz, numBands, band, n % sz.height, n / sz.height);
    hide Size.Pixels, Size.InBand;
    assert sz.InArray(sz.InBand(n)) == n;
  }

  /** A source in which one cell differs from all others. */
  function OneCell(n: nat, at: int): seq<Cell> { seq(n, i => if i == at then [1] else [0]) }

  /** Every band holds the array's cells, converted, for all arrays, exactly if the offset of the last pixel is below 2^32. */
  lemma EncodingRightIff(sz: Size, numBands: nat, isBoolean: bool)
    requires sz.Ok() && numBands >= 1
    ensures (forall src: seq<Cell>, band: nat, n: nat ::
               |src| == sz.Pixels() * numBands && band < numBands && n < sz.Pixels() ==>
                 BandCellRight(src, sz, numBands, band, isBoolean, n))
            <==> (sz.Pixels() - 1) * numBands < WORD
  {
    if (sz.Pixels() - 1) * numBands < WORD {
      forall src: seq<Cell>, band: nat, n: nat | |src| == sz.Pixels() * numBands && band < numBands && n < sz.Pixels()
        ensures BandCellRight(src, sz, numBands, band, isBoolean, n)
      {
        EncodedCell(src, sz, numBands, band, isBoolean, n);
      }
    } else {
      OffsetsExactIff(sz, numBands);
      var row: nat, col: nat :|
        row < sz.height && col < sz.width && ColOffset(sz, numBands, row, col) != (row + sz.height * col) * numBands;
      MovedCell(sz, numBands, isBoolean, row, col);
    }
  }

  predicate BandCellRight(src: seq<Cell>, sz: Size, numBands: nat, band: nat, isBoolean: bool, n: nat)
    requires sz.Ok() && |src| == sz.Pixels() * numBands && band < numBands && n < sz.Pixels()
  {
    InBandBound(sz, n);
    PairBound(n, band, sz.Pixels(), numBands);
    MulMono(0, n, numBands);
    EncodedBand(src, sz, numBands, band, isBoolean)[sz.InBand(n)] == Converted(src[n * numBands + band], isBoolean)
  }

  lemma MovedCell(sz: Size, numBands: nat, isBoolean: bool, row: nat, col: nat)
    requires sz.Ok() && numBands >= 1 && row < sz.height && col < sz.width
    requires ColOffset(sz, numBands, row, col) != (row + sz.height * col) * numBands
    ensures exists src: seq<Cell>, n: nat ::
      |src| == sz.Pixels() * numBands && n < sz.Pixels() && !BandCellRight(src, sz, numBands, 0, isBoolean, n)
  {
    var n := row + sz.height * col;
    assert sz.height * col == col * sz.height;
    PairBound(col, row, sz.width, sz.height);
    MulMono(0, col, sz.height);
    InBandBound(sz, n);
    DivUnique(n, sz.height, col, row);
    OffsetInSource(sz, numBands, 0, row, col);
    RowBound(sz, sz.InBand(n));
    DivBounds(sz.InBand(n), sz.width);
    MulMono(0, sz.Pixels(), numBands);
    var src := OneCell(sz.Pixels() * numBands, n * numBands);
    assert !BandCellRight(src, sz, numBands, 0, isBoolean, n);
  }
}

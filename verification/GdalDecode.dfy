/**
 Decoding with the GDAL converter: which bands are taken, where their cells go, and what encoding and decoding
 does to an array.

 The converter looks up the field of a band by its band id. Its result is right only if that is the field the band
 is for; where it is not, the band's buffer or the tile may be overrun, which ends the model's run.
 */
module GdalDecode {
  import opened Prelude
  import opened Boxes
  import opened Gdal

  // ---------- which bands are decoded ----------

  function AllBands(count: nat): (r: seq<nat>)
    ensures |r| == count
  {
    seq(count, i requires 0 <= i < count => i)
  }

  predicate InRange(ids: seq<int>, count: nat) { forall i :: 0 <= i < |ids| ==> 0 <= ids[i] < count }

  /** The bands a caller asks for: the requested ones, or all. */
  function Wanted(requested: seq<int>, count: nat): (r: seq<nat>)
    requires InRange(requested, count)
    ensures forall i :: 0 <= i < |r| ==> r[i] < count
  {
    if requested == [] then AllBands(count) else seq(|requested|, i requires 0 <= i < |requested| => requested[i])
  }

  /** The bands the converter decodes: requested ones twice. */
  function BandIds(requested: seq<int>, count: nat): (r: seq<nat>)
    requires InRange(requested, count)
    ensures forall i :: 0 <= i < |r| ==> r[i] < count
  {
    if requested == [] then Wanted(requested, count) else Wanted(requested, count) + Wanted(requested, count)
  }

  /** `getBandIds`: the loop that checks the requested ids also appends them. */
  method GetBandIds(requested: seq<int>, count: nat) returns (r: Option<seq<nat>>)
    ensures r == if InRange(requested, count) then Some(BandIds(requested, count)) else None
  {
    if requested == [] {
      var ids: seq<nat> := [];
      for band := 0 to count
        invariant ids == AllBands(count)[..band]
      {
        ids := ids + [band];
      }
      assert ids == BandIds(requested, count);
      return Some(ids);
    }
    var bandIds := requested;
    var noOfBands := |bandIds|;
    for i := 0 to noOfBands
      invariant bandIds == requested + requested[..i] && InRange(requested[..i], count)
    {
      var bandId := bandIds[i];
      if bandId < 0 || bandId >= count { assert requested[i] == bandId; return None; }
      bandIds := bandIds + [bandId];
    }
    assert requested[..noOfBands] == requested;
    var ids: seq<nat> := seq(|bandIds|, i requires 0 <= i < |bandIds| => bandIds[i]);
    assert ids == BandIds(requested, count);
    return Some(ids);
  }

  // ---------- pixels and fields ----------

  /** The bands of a data set: their cell sizes and their cells. */
  predicate DataSet(bands: seq<seq<Cell>>, sizes: seq<nat>, sz: Size) {
    && sz.Ok() && |bands| == |sizes| && (forall b :: 0 <= b < |bands| ==> sizes[b] >= 1 && BandOk(bands[b], sizes[b], sz))
  }

  predicate BandOk(band: seq<Cell>, size: nat, sz: Size)
    requires sz.Ok()
  {
    |band| == sz.Pixels() && forall k :: 0 <= k < |band| ==> |band[k]| == size
  }

  predicate KnownBands(ids: seq<nat>, sizes: seq<nat>) { forall i :: 0 <= i < |ids| ==> ids[i] < |sizes| }

  /** Size of the result type: the listed bands, packed. */
  function Total(ids: seq<nat>, sizes: seq<nat>): nat
    requires KnownBands(ids, sizes)
  {
    if ids == [] then 0 else Total(ids[..|ids| - 1], sizes) + sizes[ids[|ids| - 1]]
  }

  /** One pixel of the result: the listed bands' bytes, packed. */
  function PixelBytes(ids: seq<nat>, bands: seq<seq<Cell>>, sizes: seq<nat>, sz: Size, m: nat): (r: seq<byte>)
    requires DataSet(bands, sizes, sz) && KnownBands(ids, sizes) && m < sz.Pixels()
    ensures |r| == Total(ids, sizes)
  {
    if ids == [] then []
    else
      var last := ids[|ids| - 1];
      assert BandOk(bands[last], sizes[last], sz);
      PixelBytes(ids[..|ids| - 1], bands, sizes, sz, m) + bands[last][m]
  }

  /**
   A list of bands and its result type: a struct with one field for each of them, or the type of the first band
   of the data set for a single one, which is then that band.
   */
  predicate BandList(ids: seq<nat>, sizes: seq<nat>) {
    && KnownBands(ids, sizes) && ids != [] && (|ids| == 1 ==> ids[0] == 0)
    && forall b :: 0 <= b < |sizes| ==> sizes[b] >= 1
  }

  /** The size of the field the converter looks up for a band: number `bandId` of the result type. */
  function FieldSize(ids: seq<nat>, sizes: seq<nat>, bandId: nat): Option<nat>
    requires KnownBands(ids, sizes)
  {
    if bandId < |ids| then Some(sizes[ids[bandId]]) else None
  }

  /** Every looked-up field has the size of its band. */
  predicate FieldsMatch(ids: seq<nat>, sizes: seq<nat>) {
    KnownBands(ids, sizes) && forall i :: 0 <= i < |ids| ==> FieldSize(ids, sizes, ids[i]) == Some(sizes[ids[i]])
  }

  /** Offset and largest size of the looked-up fields of the first i bands. */
  function FieldSum(ids: seq<nat>, sizes: seq<nat>, i: nat): nat
    requires KnownBands(ids, sizes) && i <= |ids|
  {
    if i == 0 then 0
    else
      match FieldSize(ids, sizes, ids[i - 1])
      case Some(n) => FieldSum(ids, sizes, i - 1) + n
      case None => FieldSum(ids, sizes, i - 1)
  }

  function FieldMax(ids: seq<nat>, sizes: seq<nat>, i: nat): (m: nat)
    requires KnownBands(ids, sizes) && i <= |ids|
    ensures i > 0 ==> m >= FieldMax(ids, sizes, i - 1)
  {
    if i == 0 then 0
    else
      match FieldSize(ids, sizes, ids[i - 1])
      case Some(n) => Max(FieldMax(ids, sizes, i - 1), n)
      case None => FieldMax(ids, sizes, i - 1)
  }

  lemma PixelOf(sz: Size, step: nat, k: nat)
    requires sz.Ok() && k < sz.Pixels() * step
    ensures step > 0 && 0 <= k / step < sz.Pixels() && 0 <= sz.InBand(k / step) < sz.Pixels() && 0 <= k % step < step
    ensures k == k / step * step + k % step
  {
    MulZero(sz.Pixels());
    DivBounds(k, step);
    QuotientBound(k, sz.Pixels(), step);
    InBandBound(sz, k / step);
  }

  lemma ByteOf(step: nat, n: nat, b: nat)
    requires b < step
    ensures 0 <= n * step && (n * step + b) / step == n && (n * step + b) % step == b
  {
    MulMono(0, n, step);
    DivUnique(n * step + b, step, n, b);
  }

  lemma CellInTile(sz: Size, step: nat, n: nat)
    requires sz.Ok() && n < sz.Pixels()
    ensures 0 <= n * step <= n * step + step == (n + 1) * step <= sz.Pixels() * step
  {
    hide Size.Pixels;
    MulMono(0, n, step);
    MulMono(n + 1, sz.Pixels(), step);
    assert (n + 1) * step == n * step + step;
  }

  /** The tile `before` after the cells of the first n pixels of a band went to byte `at` of each pixel. */
  function Woven(before: seq<byte>, band: seq<Cell>, at: nat, step: nat, size: nat, sz: Size, n: nat): (r: seq<byte>)
    requires sz.Ok() && |before| == sz.Pixels() * step && BandOk(band, size, sz)
    ensures |r| == |before|
  {
    seq(|before|, k requires 0 <= k < |before| =>
      PixelOf(sz, step, k);
      if k / step < n && at <= k % step < at + size then band[sz.InBand(k / step)][k % step - at] else before[k])
  }

  lemma WovenByte(before: seq<byte>, band: seq<Cell>, at: nat, step: nat, size: nat, sz: Size, n: nat, pos: nat, k: nat)
    requires sz.Ok() && |before| == sz.Pixels() * step && BandOk(band, size, sz) && n < sz.Pixels() && at + size <= step
    requires pos == n * step + at && k < |before|
    ensures 0 <= sz.InBand(n) < |band|
    ensures Woven(before, band, at, step, size, sz, n + 1)[k] ==
            if pos <= k < pos + size then band[sz.InBand(n)][k - pos] else Woven(before, band, at, step, size, sz, n)[k]
  {
    hide Size.Pixels, Size.InBand;
    InBandBound(sz, n);
    PixelOf(sz, step, k);
    if pos <= k < pos + size { ByteOf(step, n, k - n * step); }
  }

  lemma WovenNext(before: seq<byte>, band: seq<Cell>, at: nat, step: nat, size: nat, sz: Size, n: nat)
    requires sz.Ok() && |before| == sz.Pixels() * step && BandOk(band, size, sz) && n < sz.Pixels() && at + size <= step
    ensures 0 <= n * step + at && n * step + at + size <= |before| && 0 <= sz.InBand(n) < |band|
    ensures Put(Woven(before, band, at, step, size, sz, n), n * step + at, band[sz.InBand(n)])
            == Woven(before, band, at, step, size, sz, n + 1)
  {
    hide Size.Pixels, Size.InBand, Woven;
    InBandBound(sz, n);
    CellInTile(sz, step, n);
    var pos := n * step + at;
    var w, w' := Woven(before, band, at, step, size, sz, n), Woven(before, band, at, step, size, sz, n + 1);
    forall k | 0 <= k < |before| ensures w'[k] == if pos <= k < pos + size then band[sz.InBand(n)][k - pos] else w[k] {
      WovenByte(before, band, at, step, size, sz, n, pos, k);
    }
  }

  lemma WovenNone(before: seq<byte>, band: seq<Cell>, at: nat, step: nat, size: nat, sz: Size)
    requires sz.Ok() && |before| == sz.Pixels() * step && BandOk(band, size, sz)
    ensures Woven(before, band, at, step, size, sz, 0) == before
  {
    hide Size.Pixels;
    forall k | 0 <= k < |before| ensures Woven(before, band, at, step, size, sz, 0)[k] == before[k] {
      PixelOf(sz, step, k);
    }
  }

  lemma ColumnPixel(sz: Size, col: nat, row: nat)
    requires sz.Ok() && row < sz.height && col < sz.width
    ensures 0 <= col * sz.height && col * sz.height + row < sz.Pixels() && (col + 1) * sz.height == col * sz.height + sz.height
    ensures sz.InBand(col * sz.height + row) == row * sz.width + col
  {
    MulMono(0, col, sz.height);
    PairBound(col, row, sz.width, sz.height);
    DivUnique(col * sz.height + row, sz.height, col, row);
  }

  /** `decodeBand`: the cells of one band, column by column. */
  method DecodeBand(band: seq<Cell>, tile: array<byte>, at: nat, step: nat, size: nat, sz: Size)
    requires sz.Ok() && BandOk(band, size, sz) && tile.Length == sz.Pixels() * step && at + size <= step
    modifies tile
    ensures tile[..] == Woven(old(tile[..]), band, at, step, size, sz, sz.Pixels())
  {
    hide Size.Pixels, Size.InBand, Woven, Put;
    ghost var before := tile[..];
    WovenNone(before, band, at, step, size, sz);
    ZeroColumns(sz);
    var tilePos, n := at, 0;
    MulZero(step);
    for col := 0 to sz.width
      invariant n == col * sz.height && tilePos == n * step + at
      invariant tile[..] == Woven(before, band, at, step, size, sz, n)
    {
      ColumnPixel(sz, col, 0);
      for row := 0 to sz.height
        invariant n == col * sz.height + row && tilePos == n * step + at
        invariant tile[..] == Woven(before, band, at, step, size, sz, n)
      {
        ColumnPixel(sz, col, row);
        WovenNext(before, band, at, step, size, sz, n);
        Store(tile, tilePos, band[row * sz.width + col]);
        tilePos := tilePos + step;
        assert (n + 1) * step == n * step + step;
        n := n + 1;
      }
    }
  }

  lemma ZeroColumns(sz: Size)
    requires sz.Ok()
    ensures 0 * sz.height == 0 && sz.width * sz.height == sz.Pixels()
  {
  }

  /** One cell goes to its place in memory. */
  method Store(tile: array<byte>, pos: nat, cell: Cell)
    requires pos + |cell| <= tile.Length
    modifies tile
    ensures tile[..] == Put(old(tile[..]), pos, cell)
  {
    forall b | 0 <= b < |cell| { tile[pos + b] := cell[b]; }
  }

  /** The bytes of the listed bands are in the tile at byte k, if it is one of theirs. */
  predicate ByteDone(tile: seq<byte>, ids: seq<nat>, bands: seq<seq<Cell>>, sizes: seq<nat>, sz: Size, step: nat, k: nat)
    requires DataSet(bands, sizes, sz) && KnownBands(ids, sizes) && k < |tile| == sz.Pixels() * step
  {
    PixelOf(sz, step, k);
    k % step < Total(ids, sizes) ==> tile[k] == PixelBytes(ids, bands, sizes, sz, sz.InBand(k / step))[k % step]
  }

  ghost predicate AllDone(tile: seq<byte>, ids: seq<nat>, bands: seq<seq<Cell>>, sizes: seq<nat>, sz: Size, step: nat)
    requires DataSet(bands, sizes, sz) && KnownBands(ids, sizes) && |tile| == sz.Pixels() * step
  {
    forall k :: 0 <= k < |tile| ==> ByteDone(tile, ids, bands, sizes, sz, step, k)
  }

  lemma BandDone(before: seq<byte>, ids: seq<nat>, i: nat, bands: seq<seq<Cell>>, sizes: seq<nat>, sz: Size, step: nat)
    requires DataSet(bands, sizes, sz) && KnownBands(ids, sizes) && i < |ids| && |before| == sz.Pixels() * step
    requires AllDone(before, ids[..i], bands, sizes, sz, step) && Total(ids[..i + 1], sizes) <= step
    ensures BandOk(bands[ids[i]], sizes[ids[i]], sz) && Total(ids[..i + 1], sizes) == Total(ids[..i], sizes) + sizes[ids[i]]
    ensures AllDone(Woven(before, bands[ids[i]], Total(ids[..i], sizes), step, sizes[ids[i]], sz, sz.Pixels()),
                    ids[..i + 1], bands, sizes, sz, step)
  {
    hide Size.Pixels, Size.InBand;
    assert BandOk(bands[ids[i]], sizes[ids[i]], sz);
    var done := ids[..i + 1];
    assert done[..i] == ids[..i];
    var after := Woven(before, bands[ids[i]], Total(ids[..i], sizes), step, sizes[ids[i]], sz, sz.Pixels());
    forall k | 0 <= k < |after| ensures ByteDone(after, done, bands, sizes, sz, step, k) {
      PixelOf(sz, step, k);
      assert ByteDone(before, ids[..i], bands, sizes, sz, step, k);
    }
  }

  lemma {:induction false} TotalGrows(ids: seq<nat>, sizes: seq<nat>, i: nat)
    requires KnownBands(ids, sizes) && i <= |ids|
    ensures Total(ids[..i], sizes) <= Total(ids, sizes)
  {
    if i < |ids| {
      var d := |ids| - 1;
      TotalGrows(ids[..d], sizes, i);
      assert ids[..d][..i] == ids[..i];
    } else {
      assert ids[..i] == ids;
    }
  }

  lemma SizeOk(bands: seq<seq<Cell>>, sizes: seq<nat>, sz: Size)
    requires DataSet(bands, sizes, sz)
    ensures sz.Ok() && |bands| == |sizes|
  {
  }

  lemma NothingDone(tile: seq<byte>, bands: seq<seq<Cell>>, sizes: seq<nat>, sz: Size, step: nat)
    requires DataSet(bands, sizes, sz) && |tile| == sz.Pixels() * step
    ensures AllDone(tile, [], bands, sizes, sz, step)
  {
    hide Size.Pixels, Size.InBand;
    forall k | 0 <= k < |tile| ensures ByteDone(tile, [], bands, sizes, sz, step, k) { PixelOf(sz, step, k); }
  }

  // ---------- the loop over the bands ----------

  /** What becomes of the first i bands. */
  datatype Verdict = Fine | NoSuchField | BandOverrun | TileOverrun

  /**
   A band without a field is an error. The buffer of the bands has room for the largest field so far, and the cells
   of a band go behind the fields so far in each pixel; the last pixel overruns the tile if they go beyond it.
   */
  function FirstFault(ids: seq<nat>, sizes: seq<nat>, i: nat): Verdict
    requires KnownBands(ids, sizes) && i <= |ids|
  {
    if i == 0 then Fine
    else
      var before, size := FirstFault(ids, sizes, i - 1), sizes[ids[i - 1]];
      if before != Fine then before
      else if FieldSize(ids, sizes, ids[i - 1]).None? then NoSuchField
      else if size > FieldMax(ids, sizes, i) then BandOverrun
      else if FieldSum(ids, sizes, i - 1) + size > Total(ids, sizes) then TileOverrun
      else Fine
  }

  lemma {:induction false} FaultStays(ids: seq<nat>, sizes: seq<nat>, i: nat, k: nat)
    requires KnownBands(ids, sizes) && i <= k <= |ids| && FirstFault(ids, sizes, i) != Fine
    ensures FirstFault(ids, sizes, k) == FirstFault(ids, sizes, i)
  {
    if i < k { FaultStays(ids, sizes, i, k - 1); }
  }

  lemma {:induction false} FineBefore(ids: seq<nat>, sizes: seq<nat>, i: nat, k: nat)
    requires KnownBands(ids, sizes) && i < k <= |ids| && FirstFault(ids, sizes, k) == Fine
    ensures FirstFault(ids, sizes, i) == Fine && FirstFault(ids, sizes, i + 1) == Fine
    ensures FieldSize(ids, sizes, ids[i]).Some? && sizes[ids[i]] <= FieldMax(ids, sizes, i + 1)
    ensures FieldSum(ids, sizes, i) + sizes[ids[i]] <= Total(ids, sizes)
  {
    if i + 1 < k { FineBefore(ids, sizes, i, k - 1); }
  }

  /** The tile `memory` after the first i bands. */
  function TileAfter(memory: seq<byte>, ids: seq<nat>, bands: seq<seq<Cell>>, sizes: seq<nat>, sz: Size, i: nat): (r: seq<byte>)
    requires DataSet(bands, sizes, sz) && KnownBands(ids, sizes) && i <= |ids| && |memory| == sz.Pixels() * Total(ids, sizes)
    ensures |r| == |memory|
  {
    if i == 0 then memory
    else
      assert BandOk(bands[ids[i - 1]], sizes[ids[i - 1]], sz);
      Woven(TileAfter(memory, ids, bands, sizes, sz, i - 1), bands[ids[i - 1]], FieldSum(ids, sizes, i - 1),
            Total(ids, sizes), sizes[ids[i - 1]], sz, sz.Pixels())
  }

  datatype Outcome = Done(tile: seq<byte>) | Failed(why: Verdict)

  /** The outcome of a loop with this verdict, for some contents of the memory the tile was allocated in. */
  ghost predicate DecodedAs(r: Outcome, ids: seq<nat>, bands: seq<seq<Cell>>, sizes: seq<nat>, sz: Size)
    requires DataSet(bands, sizes, sz) && KnownBands(ids, sizes)
  {
    var v := FirstFault(ids, sizes, |ids|);
    if v != Fine then r == Failed(v)
    else exists memory: seq<byte> ::
      |memory| == sz.Pixels() * Total(ids, sizes) && r == Done(TileAfter(memory, ids, bands, sizes, sz, |ids|))
  }

  /** `decodeImage`: band after band into the fields of the result type. */
  method DecodeImage(ids: seq<nat>, bands: seq<seq<Cell>>, sizes: seq<nat>, sz: Size) returns (r: Outcome)
    requires DataSet(bands, sizes, sz) && BandList(ids, sizes)
    ensures DecodedAs(r, ids, bands, sizes, sz)
  {
    hide Size.Pixels, Woven, DataSet, FirstFault, TileAfter, FieldMax, FieldSum;
    SizeOk(bands, sizes, sz);
    var pixels, step := sz.Pixels(), Total(ids, sizes);
    MulMono(0, pixels, step);
    var tile := new byte[pixels * step];
    ghost var memory := tile[..];
    var bandOffset, bandSize := 0, 0;
    Start(ids, sizes, memory, bands, sz);
    MulZero(pixels);
    for i := 0 to |ids|
      invariant bandOffset == FieldSum(ids, sizes, i) && bandSize == pixels * FieldMax(ids, sizes, i)
      invariant FirstFault(ids, sizes, i) == Fine
      invariant tile[..] == TileAfter(memory, ids, bands, sizes, sz, i)
    {
      NextBand(memory, ids, bands, sizes, sz, i);
      var field := FieldSize(ids, sizes, ids[i]);
      if field.None? { FaultStays(ids, sizes, i + 1, |ids|); return Failed(NoSuchField); }
      var newBandSize := pixels * field.value;
      Capacity(pixels, FieldMax(ids, sizes, i), field.value, sizes[ids[i]]);
      if newBandSize > bandSize { bandSize := newBandSize; }
      if pixels * sizes[ids[i]] > bandSize { FaultStays(ids, sizes, i + 1, |ids|); return Failed(BandOverrun); }
      LastPixel(pixels, step, bandOffset + sizes[ids[i]]);
      if bandOffset + (pixels - 1) * step + sizes[ids[i]] > pixels * step {
        FaultStays(ids, sizes, i + 1, |ids|);
        return Failed(TileOverrun);
      }
      DecodeBand(bands[ids[i]], tile, bandOffset, step, sizes[ids[i]], sz);
      bandOffset := bandOffset + field.value;
    }
    return Done(tile[..]);
  }

  lemma Start(ids: seq<nat>, sizes: seq<nat>, memory: seq<byte>, bands: seq<seq<Cell>>, sz: Size)
    requires DataSet(bands, sizes, sz) && KnownBands(ids, sizes) && |memory| == sz.Pixels() * Total(ids, sizes)
    ensures FieldSum(ids, sizes, 0) == 0 && FieldMax(ids, sizes, 0) == 0 && FirstFault(ids, sizes, 0) == Fine
    ensures TileAfter(memory, ids, bands, sizes, sz, 0) == memory
  {
  }

  lemma NextBand(memory: seq<byte>, ids: seq<nat>, bands: seq<seq<Cell>>, sizes: seq<nat>, sz: Size, i: nat)
    requires DataSet(bands, sizes, sz) && KnownBands(ids, sizes) && i < |ids| && |memory| == sz.Pixels() * Total(ids, sizes)
    requires FirstFault(ids, sizes, i) == Fine
    ensures BandOk(bands[ids[i]], sizes[ids[i]], sz)
    ensures FirstFault(ids, sizes, i + 1) ==
            match FieldSize(ids, sizes, ids[i])
            case None => NoSuchField
            case Some(n) =>
              if sizes[ids[i]] > Max(FieldMax(ids, sizes, i), n) then BandOverrun
              else if FieldSum(ids, sizes, i) + sizes[ids[i]] > Total(ids, sizes) then TileOverrun else Fine
    ensures FieldSize(ids, sizes, ids[i]).Some? ==>
      && FieldSum(ids, sizes, i + 1) == FieldSum(ids, sizes, i) + FieldSize(ids, sizes, ids[i]).value
      && FieldMax(ids, sizes, i + 1) == Max(FieldMax(ids, sizes, i), FieldSize(ids, sizes, ids[i]).value)
    ensures TileAfter(memory, ids, bands, sizes, sz, i + 1)
            == Woven(TileAfter(memory, ids, bands, sizes, sz, i), bands[ids[i]], FieldSum(ids, sizes, i), Total(ids, sizes),
                     sizes[ids[i]], sz, sz.Pixels())
  {
    hide Size.Pixels, Woven;
    assert BandOk(bands[ids[i]], sizes[ids[i]], sz);
  }

  lemma Capacity(pixels: nat, m: nat, field: nat, size: nat)
    requires pixels >= 1
    ensures pixels * Max(m, field) == Max(pixels * m, pixels * field)
    ensures pixels * size > pixels * Max(m, field) <==> size > Max(m, field)
  {
    if m <= field { MulMono(m, field, pixels); } else { MulMono(field, m, pixels); }
    var x := Max(m, field);
    if size > x { MulMono(x + 1, size, pixels); assert (x + 1) * pixels == x * pixels + pixels; } else { MulMono(size, x, pixels); }
  }

  lemma LastPixel(pixels: nat, step: nat, end: nat)
    ensures (pixels - 1) * step == pixels * step - step
  {
  }

  // ---------- when the result is right ----------

  /** Decoding comes through, and every byte of every pixel is that of the listed bands. */
  ghost predicate DecodedRight(ids: seq<nat>, bands: seq<seq<Cell>>, sizes: seq<nat>, sz: Size, memory: seq<byte>)
    requires DataSet(bands, sizes, sz) && KnownBands(ids, sizes) && |memory| == sz.Pixels() * Total(ids, sizes)
  {
    && FirstFault(ids, sizes, |ids|) == Fine
    && AllDone(TileAfter(memory, ids, bands, sizes, sz, |ids|), ids, bands, sizes, sz, Total(ids, sizes))
  }

  /** It does so for all data sets with bands of these sizes. */
  ghost predicate RightForAll(ids: seq<nat>, sizes: seq<nat>, sz: Size)
    requires sz.Ok() && KnownBands(ids, sizes)
  {
    && FirstFault(ids, sizes, |ids|) == Fine
    && forall bands, memory | DataSet(bands, sizes, sz) && |memory| == sz.Pixels() * Total(ids, sizes) ::
         DecodedRight(ids, bands, sizes, sz, memory)
  }

  /** Every band but the last finds a field of its size; the last finds one, and room in the buffer. */
  predicate Placed(ids: seq<nat>, sizes: seq<nat>)
    requires KnownBands(ids, sizes)
  {
    && (forall i :: 0 <= i < |ids| - 1 ==> FieldSize(ids, sizes, ids[i]) == Some(sizes[ids[i]]))
    && (ids != [] ==> FieldSize(ids, sizes, ids[|ids| - 1]).Some?
                      && sizes[ids[|ids| - 1]] <= FieldMax(ids, sizes, |ids|))
  }

  lemma {:induction false} PlacedSum(ids: seq<nat>, sizes: seq<nat>, i: nat)
    requires KnownBands(ids, sizes) && i <= |ids|
    requires forall j :: 0 <= j < i ==> FieldSize(ids, sizes, ids[j]) == Some(sizes[ids[j]])
    ensures FieldSum(ids, sizes, i) == Total(ids[..i], sizes)
  {
    if i > 0 {
      PlacedSum(ids, sizes, i - 1);
      assert ids[..i][..i - 1] == ids[..i - 1];
    }
  }

  lemma TotalNext(ids: seq<nat>, sizes: seq<nat>, i: nat)
    requires KnownBands(ids, sizes) && i < |ids|
    ensures Total(ids[..i + 1], sizes) == Total(ids[..i], sizes) + sizes[ids[i]] <= Total(ids, sizes)
  {
    TotalGrows(ids, sizes, i + 1);
    assert ids[..i + 1][..i] == ids[..i];
  }

  lemma {:induction false} PlacedFine(ids: seq<nat>, sizes: seq<nat>, i: nat)
    requires KnownBands(ids, sizes) && Placed(ids, sizes) && i <= |ids|
    ensures FirstFault(ids, sizes, i) == Fine
  {
    if i > 0 {
      PlacedFine(ids, sizes, i - 1);
      PlacedSum(ids, sizes, i - 1);
      TotalNext(ids, sizes, i - 1);
    }
  }

  lemma {:induction false} PlacedDone(ids: seq<nat>, bands: seq<seq<Cell>>, sizes: seq<nat>, sz: Size, memory: seq<byte>, i: nat)
    requires DataSet(bands, sizes, sz) && KnownBands(ids, sizes) && |memory| == sz.Pixels() * Total(ids, sizes)
    requires Placed(ids, sizes) && i <= |ids|
    ensures AllDone(TileAfter(memory, ids, bands, sizes, sz, i), ids[..i], bands, sizes, sz, Total(ids, sizes))
  {
    hide Size.Pixels, Woven, DataSet, AllDone, FirstFault, FieldSum, FieldMax, TileAfter, PixelBytes, Total;
    SizeOk(bands, sizes, sz);
    if i == 0 {
      assert ids[..0] == [];
      Start(ids, sizes, memory, bands, sz);
      NothingDone(memory, bands, sizes, sz, Total(ids, sizes));
    } else {
      PlacedDone(ids, bands, sizes, sz, memory, i - 1);
      PlacedFine(ids, sizes, i - 1);
      PlacedSum(ids, sizes, i - 1);
      TotalNext(ids, sizes, i - 1);
      NextBand(memory, ids, bands, sizes, sz, i - 1);
      BandDone(TileAfter(memory, ids, bands, sizes, sz, i - 1), ids, i - 1, bands, sizes, sz, Total(ids, sizes));
    }
  }

  /** Bands whose cells have a 1 at byte q and 0 elsewhere. */
  function MarkedBands(sizes: seq<nat>, sz: Size, q: nat): (r: seq<seq<Cell>>)
    requires sz.Ok() && forall b :: 0 <= b < |sizes| ==> sizes[b] >= 1
    ensures DataSet(r, sizes, sz)
  {
    seq(|sizes|, b requires 0 <= b < |sizes| => seq(sz.Pixels(), _ => Marked(sizes[b], q)))
  }

  function Marked(size: nat, q: nat): (r: Cell)
    ensures |r| == size && forall x :: 0 <= x < size ==> r[x] == if x == q then 1 else 0
  {
    seq(size, x => if x == q then 1 else 0)
  }

  lemma MarkedCell(sizes: seq<nat>, sz: Size, q: nat, b: nat)
    requires sz.Ok() && (forall b :: 0 <= b < |sizes| ==> sizes[b] >= 1) && b < |sizes|
    ensures |MarkedBands(sizes, sz, q)| == |sizes| && |MarkedBands(sizes, sz, q)[b]| == sz.Pixels()
    ensures MarkedBands(sizes, sz, q)[b][0] == Marked(sizes[b], q)
  {
  }

  lemma FirstPixel(sz: Size)
    requires sz.Ok()
    ensures sz.InBand(0) == 0
  {
  }

  /** Byte p of the first pixel, after one more band. */
  lemma FirstPixelByte(memory: seq<byte>, ids: seq<nat>, bands: seq<seq<Cell>>, sizes: seq<nat>, sz: Size, i: nat, p: nat)
    requires DataSet(bands, sizes, sz) && KnownBands(ids, sizes) && i < |ids| && |memory| == sz.Pixels() * Total(ids, sizes)
    requires FirstFault(ids, sizes, i) == Fine && p < Total(ids, sizes)
    ensures p < |memory| && |bands[ids[i]]| > 0 && |bands[ids[i]][0]| == sizes[ids[i]]
    ensures TileAfter(memory, ids, bands, sizes, sz, i + 1)[p] ==
            var at := FieldSum(ids, sizes, i);
            if at <= p < at + sizes[ids[i]] then bands[ids[i]][0][p - at] else TileAfter(memory, ids, bands, sizes, sz, i)[p]
  {
    hide Size.InBand, FieldSum, FirstFault, TileAfter;
    var step := Total(ids, sizes);
    NextBand(memory, ids, bands, sizes, sz, i);
    MulMono(1, sz.Pixels(), step);
    DivUnique(p, step, 0, p);
    FirstPixel(sz);
  }

  /** A byte that no band so far covers keeps what the memory had. */
  lemma {:induction false} Untouched(memory: seq<byte>, ids: seq<nat>, bands: seq<seq<Cell>>, sizes: seq<nat>, sz: Size, from: nat, i: nat, p: nat)
    requires DataSet(bands, sizes, sz) && KnownBands(ids, sizes) && from <= i <= |ids| && |memory| == sz.Pixels() * Total(ids, sizes)
    requires FirstFault(ids, sizes, i) == Fine && p < Total(ids, sizes) <= |memory|
    requires forall j :: from <= j < i ==> FieldSum(ids, sizes, j) > p || FieldSum(ids, sizes, j) + sizes[ids[j]] <= p
    ensures TileAfter(memory, ids, bands, sizes, sz, i)[p] == TileAfter(memory, ids, bands, sizes, sz, from)[p]
  {
    hide Size.Pixels, FieldSum, TileAfter, FirstFault, FieldMax, Total, DataSet, KnownBands, FieldSize;
    if from < i {
      FineBefore(ids, sizes, i - 1, i);
      Untouched(memory, ids, bands, sizes, sz, from, i - 1, p);
      FirstPixelByte(memory, ids, bands, sizes, sz, i - 1, p);
    }
  }

  lemma SumAfter(ids: seq<nat>, sizes: seq<nat>, k: nat, f: nat)
    requires KnownBands(ids, sizes) && k < |ids| && FieldSize(ids, sizes, ids[k]) == Some(f)
    ensures FieldSum(ids, sizes, k + 1) == FieldSum(ids, sizes, k) + f
  {
  }

  lemma {:induction false} SumGrows(ids: seq<nat>, sizes: seq<nat>, i: nat, k: nat)
    requires BandList(ids, sizes) && i <= k <= |ids| && FirstFault(ids, sizes, |ids|) == Fine
    ensures FieldSum(ids, sizes, i) <= FieldSum(ids, sizes, k) && (i < k ==> FieldSum(ids, sizes, i) < FieldSum(ids, sizes, k))
  {
    hide FirstFault, FieldMax, FieldSum, Total;
    if i < k {
      SumGrows(ids, sizes, i, k - 1);
      FineBefore(ids, sizes, k - 1, |ids|);
      SumAfter(ids, sizes, k - 1, FieldSize(ids, sizes, ids[k - 1]).value);
    }
  }

  /** Byte x of band i is where the band's field begins, plus x. */
  lemma {:induction false} WantedByte(ids: seq<nat>, bands: seq<seq<Cell>>, sizes: seq<nat>, sz: Size, m: nat, i: nat, x: nat)
    requires DataSet(bands, sizes, sz) && KnownBands(ids, sizes) && m < sz.Pixels() && i < |ids| && x < sizes[ids[i]]
    ensures m < |bands[ids[i]]| && x < |bands[ids[i]][m]| && Total(ids[..i], sizes) + x < Total(ids, sizes)
    ensures PixelBytes(ids, bands, sizes, sz, m)[Total(ids[..i], sizes) + x] == bands[ids[i]][m][x]
  {
    hide Size.Pixels;
    var d := |ids| - 1;
    assert BandOk(bands[ids[i]], sizes[ids[i]], sz) && BandOk(bands[ids[d]], sizes[ids[d]], sz);
    TotalNext(ids, sizes, i);
    if i < d {
      assert ids[..d][..i] == ids[..i];
      WantedByte(ids[..d], bands, sizes, sz, m, i, x);
    }
  }

  lemma RightByte(tile: seq<byte>, ids: seq<nat>, bands: seq<seq<Cell>>, sizes: seq<nat>, sz: Size, i: nat, x: nat)
    requires DataSet(bands, sizes, sz) && KnownBands(ids, sizes) && i < |ids| && x < sizes[ids[i]]
    requires |tile| == sz.Pixels() * Total(ids, sizes) && AllDone(tile, ids, bands, sizes, sz, Total(ids, sizes))
    ensures var p := Total(ids[..i], sizes) + x;
            0 < |bands[ids[i]]| && x < |bands[ids[i]][0]| && p < |tile| && tile[p] == bands[ids[i]][0][x]
  {
    hide Size.Pixels, Size.InBand, PixelBytes, DataSet;
    SizeOk(bands, sizes, sz);
    WantedByte(ids, bands, sizes, sz, 0, i, x);
    var p, step := Total(ids[..i], sizes) + x, Total(ids, sizes);
    MulMono(1, sz.Pixels(), step);
    DivUnique(p, step, 0, p);
    FirstPixel(sz);
    assert ByteDone(tile, ids, bands, sizes, sz, step, p);
  }

  predicate Mismatch(ids: seq<nat>, sizes: seq<nat>, i: nat)
    requires KnownBands(ids, sizes) && i < |ids|
  {
    FieldSize(ids, sizes, ids[i]) != Some(sizes[ids[i]])
  }

  lemma FirstMismatch(ids: seq<nat>, sizes: seq<nat>, i: nat) returns (k: nat)
    requires KnownBands(ids, sizes) && i < |ids| && Mismatch(ids, sizes, i)
    ensures k <= i && Mismatch(ids, sizes, k) && forall j :: 0 <= j < k ==> !Mismatch(ids, sizes, j)
  {
    if j :| 0 <= j < i && Mismatch(ids, sizes, j) { k := FirstMismatch(ids, sizes, j); } else { k := i; }
  }

  lemma TotalMono(ids: seq<nat>, sizes: seq<nat>, i: nat, k: nat)
    requires KnownBands(ids, sizes) && i <= k <= |ids|
    ensures Total(ids[..i], sizes) <= Total(ids[..k], sizes)
  {
    TotalGrows(ids[..k], sizes, i);
    assert ids[..k][..i] == ids[..i];
  }

  /** Up to the first mismatch, bands are where they belong. */
  lemma MatchedSum(ids: seq<nat>, sizes: seq<nat>, k: nat, j: nat)
    requires KnownBands(ids, sizes) && j <= k < |ids| && forall i :: 0 <= i < k ==> !Mismatch(ids, sizes, i)
    ensures FieldSum(ids, sizes, j) == Total(ids[..j], sizes)
  {
    forall i | 0 <= i < j ensures FieldSize(ids, sizes, ids[i]) == Some(sizes[ids[i]]) { assert !Mismatch(ids, sizes, i); }
    PlacedSum(ids, sizes, j);
  }

  /** Behind a field larger than its band, the byte where the next band belongs is covered by none. */
  lemma Gap(ids: seq<nat>, sizes: seq<nat>, k: nat, f: nat, j: nat)
    requires BandList(ids, sizes) && FirstFault(ids, sizes, |ids|) == Fine && j < |ids|
    requires k < |ids| - 1 && (forall j :: 0 <= j < k ==> !Mismatch(ids, sizes, j))
    requires FieldSize(ids, sizes, ids[k]) == Some(f) && f > sizes[ids[k]]
    ensures var p := Total(ids[..k + 1], sizes); FieldSum(ids, sizes, j) > p || FieldSum(ids, sizes, j) + sizes[ids[j]] <= p
  {
    hide FieldSum, FirstFault, Total;
    if j <= k {
      MatchedSum(ids, sizes, k, j);
      TotalNext(ids, sizes, j);
      TotalMono(ids, sizes, j + 1, k + 1);
    } else {
      MatchedSum(ids, sizes, k, k);
      SumAfter(ids, sizes, k, f);
      TotalNext(ids, sizes, k);
      SumGrows(ids, sizes, k + 1, j);
    }
  }

  /** A field larger than its band leaves a gap in front of the next band. */
  lemma GapWrong(ids: seq<nat>, sizes: seq<nat>, sz: Size, k: nat, f: nat)
    requires sz.Ok() && BandList(ids, sizes) && FirstFault(ids, sizes, |ids|) == Fine
    requires k < |ids| - 1 && (forall j :: 0 <= j < k ==> !Mismatch(ids, sizes, j))
    requires FieldSize(ids, sizes, ids[k]) == Some(f) && f > sizes[ids[k]]
    ensures !RightForAll(ids, sizes, sz)
  {
    hide Size.Pixels, TileAfter, PixelBytes, AllDone, FirstFault, FieldMax, FieldSum, Total, DataSet;
    var bands, step := MarkedBands(sizes, sz, 1), Total(ids, sizes);
    MulMono(0, sz.Pixels(), step);
    var memory := seq(sz.Pixels() * step, _ => 1);
    var p := Total(ids[..k + 1], sizes);
    TotalNext(ids, sizes, k);
    TotalNext(ids, sizes, k + 1);
    MulMono(1, sz.Pixels(), step);
    forall j | 0 <= j < |ids| ensures FieldSum(ids, sizes, j) > p || FieldSum(ids, sizes, j) + sizes[ids[j]] <= p {
      Gap(ids, sizes, k, f, j);
    }
    Untouched(memory, ids, bands, sizes, sz, 0, |ids|, p);
    Start(ids, sizes, memory, bands, sz);
    var tile := TileAfter(memory, ids, bands, sizes, sz, |ids|);
    MarkedCell(sizes, sz, 1, ids[k + 1]);
    if AllDone(tile, ids, bands, sizes, sz, step) { RightByte(tile, ids, bands, sizes, sz, k + 1, 0); }
    assert !DecodedRight(ids, bands, sizes, sz, memory);
  }

  /** A field smaller than its band lets the next band overwrite the end of it. */
  lemma OverlapWrong(ids: seq<nat>, sizes: seq<nat>, sz: Size, k: nat, f: nat)
    requires sz.Ok() && BandList(ids, sizes) && FirstFault(ids, sizes, |ids|) == Fine
    requires k < |ids| - 1 && (forall j :: 0 <= j < k ==> !Mismatch(ids, sizes, j))
    requires FieldSize(ids, sizes, ids[k]) == Some(f) && f < sizes[ids[k]]
    ensures !RightForAll(ids, sizes, sz)
  {
    hide Size.Pixels, TileAfter, PixelBytes, AllDone, FirstFault, FieldMax, FieldSum, Total, DataSet;
    var bands := MarkedBands(sizes, sz, f);
    MulMono(0, sz.Pixels(), Total(ids, sizes));
    var memory := seq(sz.Pixels() * Total(ids, sizes), _ => 0);
    var p := Total(ids[..k], sizes) + f;
    TotalNext(ids, sizes, k);
    MulMono(1, sz.Pixels(), Total(ids, sizes));
    MatchedSum(ids, sizes, k, k);
    SumAfter(ids, sizes, k, f);
    FineBefore(ids, sizes, k, |ids|);
    FirstPixelByte(memory, ids, bands, sizes, sz, k + 1, p);
    MarkedCell(sizes, sz, f, ids[k + 1]);
    MarkedCell(sizes, sz, f, ids[k]);
    forall j | k + 2 <= j < |ids| ensures FieldSum(ids, sizes, j) > p { SumGrows(ids, sizes, k + 1, j); }
    Untouched(memory, ids, bands, sizes, sz, k + 2, |ids|, p);
    var tile := TileAfter(memory, ids, bands, sizes, sz, |ids|);
    if AllDone(tile, ids, bands, sizes, sz, Total(ids, sizes)) { RightByte(tile, ids, bands, sizes, sz, k, f); }
    assert !DecodedRight(ids, bands, sizes, sz, memory);
  }

  /** The exact condition for a list of bands to be decoded rightly from all data sets. */
  lemma RightIffPlaced(ids: seq<nat>, sizes: seq<nat>, sz: Size)
    requires sz.Ok() && BandList(ids, sizes)
    ensures RightForAll(ids, sizes, sz) <==> Placed(ids, sizes)
  {
    hide Size.Pixels, TileAfter, AllDone, FirstFault, FieldMax, Total, DataSet;
    if Placed(ids, sizes) {
      PlacedFine(ids, sizes, |ids|);
      forall bands, memory | DataSet(bands, sizes, sz) && |memory| == sz.Pixels() * Total(ids, sizes)
        ensures DecodedRight(ids, bands, sizes, sz, memory)
      {
        PlacedDone(ids, bands, sizes, sz, memory, |ids|);
        assert ids[..|ids|] == ids;
      }
    } else if FirstFault(ids, sizes, |ids|) == Fine {
      var d := |ids| - 1;
      FineBefore(ids, sizes, d, |ids|);
      var i :| 0 <= i < d && FieldSize(ids, sizes, ids[i]) != Some(sizes[ids[i]]);
      assert Mismatch(ids, sizes, i);
      var k := FirstMismatch(ids, sizes, i);
      FineBefore(ids, sizes, k, |ids|);
      var f := FieldSize(ids, sizes, ids[k]).value;
      if f > sizes[ids[k]] { GapWrong(ids, sizes, sz, k, f); } else { OverlapWrong(ids, sizes, sz, k, f); }
    }
  }

  lemma RequestedList(requested: seq<int>, sizes: seq<nat>)
    requires InRange(requested, |sizes|) && |sizes| >= 1 && forall b :: 0 <= b < |sizes| ==> sizes[b] >= 1
    ensures BandList(BandIds(requested, |sizes|), sizes)
  {
  }

  /** For the lists the converter makes, requested bands twice or all bands, that is: every field has its band's size. */
  lemma RequestRightIff(requested: seq<int>, sizes: seq<nat>, sz: Size)
    requires sz.Ok() && InRange(requested, |sizes|) && |sizes| >= 1 && forall b :: 0 <= b < |sizes| ==> sizes[b] >= 1
    ensures var ids := BandIds(requested, |sizes|);
            KnownBands(ids, sizes) && (RightForAll(ids, sizes, sz) <==> FieldsMatch(ids, sizes))
  {
    hide RightForAll, FirstFault, FieldMax, FieldSum;
    RequestedList(requested, sizes);
    var ids := BandIds(requested, |sizes|);
    RightIffPlaced(ids, sizes, sz);
    if FieldsMatch(ids, sizes) { LastFits(ids, sizes); }
    if Placed(ids, sizes) { LastIsRepeated(requested, sizes); }
  }

  /** The last band of a request stands in the middle of the list too. */
  lemma LastIsRepeated(requested: seq<int>, sizes: seq<nat>)
    requires InRange(requested, |sizes|) && |sizes| >= 1 && Placed(BandIds(requested, |sizes|), sizes)
    ensures FieldsMatch(BandIds(requested, |sizes|), sizes)
  {
    var ids := BandIds(requested, |sizes|);
    forall i | 0 <= i < |ids| ensures FieldSize(ids, sizes, ids[i]) == Some(sizes[ids[i]]) {
      if i == |ids| - 1 && requested != [] { assert ids[i] == ids[|requested| - 1]; }
    }
  }

  lemma LastFits(ids: seq<nat>, sizes: seq<nat>)
    requires FieldsMatch(ids, sizes) && ids != []
    ensures sizes[ids[|ids| - 1]] <= FieldMax(ids, sizes, |ids|)
  {
    assert FieldSize(ids, sizes, ids[|ids| - 1]) == Some(sizes[ids[|ids| - 1]]);
  }

  /** All bands in order always find their fields, whatever their types. */
  lemma AllBandsRight(sizes: seq<nat>, sz: Size)
    requires sz.Ok() && |sizes| >= 1 && forall b :: 0 <= b < |sizes| ==> sizes[b] >= 1
    ensures KnownBands(AllBands(|sizes|), sizes) && RightForAll(AllBands(|sizes|), sizes, sz)
  {
    hide RightForAll;
    RequestRightIff([], sizes, sz);
    assert FieldsMatch(BandIds([], |sizes|), sizes);
  }

  /** `convertFrom`: an error for ids out of range and for an empty data set, else what `decodeImage` makes of the list. */
  method ConvertFrom(requested: seq<int>, bands: seq<seq<Cell>>, sizes: seq<nat>, sz: Size) returns (r: Option<Outcome>)
    requires DataSet(bands, sizes, sz)
    ensures r.Some? <==> InRange(requested, |sizes|) && |sizes| >= 1
    ensures r.Some? ==>
      var ids := BandIds(requested, |sizes|);
      && DecodedAs(r.value, ids, bands, sizes, sz)
      && (FieldsMatch(ids, sizes) ==>
            r.value.Done? && |r.value.tile| == sz.Pixels() * Total(ids, sizes)
            && AllDone(r.value.tile, ids, bands, sizes, sz, Total(ids, sizes)))
  {
    hide Size.Pixels, AllDone, FirstFault, TileAfter, Total, FieldsMatch, BandIds;
    var bandIds := GetBandIds(requested, |sizes|);
    if bandIds.None? || |sizes| == 0 { return None; }
    RequestedList(requested, sizes);
    RequestRightIff(requested, sizes, sz);
    var outcome := DecodeImage(bandIds.value, bands, sizes, sz);
    if FieldsMatch(bandIds.value, sizes) {
      ghost var memory: seq<byte> :| |memory| == sz.Pixels() * Total(bandIds.value, sizes)
        && outcome == Done(TileAfter(memory, bandIds.value, bands, sizes, sz, |bandIds.value|));
      assert DecodedRight(bandIds.value, bands, sizes, sz, memory);
    }
    return Some(outcome);
  }

  // ---------- requests that go wrong ----------

  /** Bands of 1 and 8 bytes, requested in reverse: 8 bytes per pixel go into a buffer of 1. */
  lemma ShortBufferExample()
    ensures var sizes, ids := [1, 8], BandIds([1, 0], 2);
            ids == [1, 0, 1, 0] && BandList(ids, sizes) && !FieldsMatch(ids, sizes) && FirstFault(ids, sizes, 4) == BandOverrun
  {
    var sizes, ids := [1, 8], BandIds([1, 0], 2);
    assert FieldSize(ids, sizes, ids[0]) == Some(1) && sizes[ids[0]] == 8;
    assert FirstFault(ids, sizes, 1) == BandOverrun by { assert FieldMax(ids, sizes, 1) == 1; }
    FaultStays(ids, sizes, 1, 4);
  }

  /** Bands of 8 and 1 bytes: the buffer is large enough, but the last band goes to bytes 17 to 24 of 18. */
  lemma ShortTileExample()
    ensures var sizes, ids := [8, 1], BandIds([1, 0], 2);
            ids == [1, 0, 1, 0] && BandList(ids, sizes) && !FieldsMatch(ids, sizes)
            && Total(ids, sizes) == 18 && FieldSum(ids, sizes, 3) == 17 && FirstFault(ids, sizes, 4) == TileOverrun
  {
    var sizes, ids := [8, 1], BandIds([1, 0], 2);
    assert FieldSize(ids, sizes, ids[0]) == Some(8) && FieldSize(ids, sizes, ids[1]) == Some(1);
    assert FieldSize(ids, sizes, ids[2]) == Some(8) && FieldSize(ids, sizes, ids[3]) == Some(1);
    assert ids[..3] == [1, 0, 1] && ids[..3][..2] == [1, 0] && ids[..3][..2][..1] == [1] && ids[..3][..2][..1][..0] == [];
    assert Total([1], sizes) == 1 && Total([1, 0], sizes) == 9 && Total([1, 0, 1], sizes) == 10;
    assert FieldSum(ids, sizes, 1) == 8 && FieldSum(ids, sizes, 2) == 9 && FieldSum(ids, sizes, 3) == 17;
    assert FieldMax(ids, sizes, 1) == 8 && FieldMax(ids, sizes, 2) == 8 && FieldMax(ids, sizes, 3) == 8;
    assert FirstFault(ids, sizes, 1) == Fine;
    assert FirstFault(ids, sizes, 2) == Fine;
    assert FirstFault(ids, sizes, 3) == Fine;
  }

  /** Three equal bands, the last one requested: the result type has fields 0 and 1 only. */
  lemma NoFieldExample()
    ensures var sizes, ids := [1, 1, 1], BandIds([2], 3);
            ids == [2, 2] && BandList(ids, sizes) && FirstFault(ids, sizes, 2) == NoSuchField
  {
    var sizes, ids := [1, 1, 1], BandIds([2], 3);
    assert FirstFault(ids, sizes, 1) == NoSuchField;
  }

  /** Pixel n of a decoded tile is the packed bytes of the listed bands at that pixel. */
  lemma TilePixel(tile: seq<byte>, ids: seq<nat>, bands: seq<seq<Cell>>, sizes: seq<nat>, sz: Size, n: nat)
    requires DataSet(bands, sizes, sz) && KnownBands(ids, sizes) && n < sz.Pixels()
    requires |tile| == sz.Pixels() * Total(ids, sizes) && AllDone(tile, ids, bands, sizes, sz, Total(ids, sizes))
    ensures var step := Total(ids, sizes);
            && 0 <= n * step <= n * step + step <= |tile| && 0 <= sz.InBand(n) < sz.Pixels()
            && tile[n * step..n * step + step] == PixelBytes(ids, bands, sizes, sz, sz.InBand(n))
  {
    hide Size.Pixels, Size.InBand, PixelBytes, DataSet;
    SizeOk(bands, sizes, sz);
    var step := Total(ids, sizes);
    InBandBound(sz, n);
    CellInTile(sz, step, n);
    var pixel, wanted := tile[n * step..n * step + step], PixelBytes(ids, bands, sizes, sz, sz.InBand(n));
    forall b | 0 <= b < step ensures pixel[b] == wanted[b] {
      ByteOf(step, n, b);
      assert ByteDone(tile, ids, bands, sizes, sz, step, n * step + b);
    }
  }

  /** Listing bands twice gives every pixel twice the bytes. */
  lemma {:induction false} PixelBytesAppend(ids: seq<nat>, more: seq<nat>, bands: seq<seq<Cell>>, sizes: seq<nat>, sz: Size, m: nat)
    requires DataSet(bands, sizes, sz) && KnownBands(ids, sizes) && KnownBands(more, sizes) && m < sz.Pixels()
    ensures KnownBands(ids + more, sizes)
    ensures PixelBytes(ids + more, bands, sizes, sz, m)
            == PixelBytes(ids, bands, sizes, sz, m) + PixelBytes(more, bands, sizes, sz, m)
  {
    hide DataSet, Size.Pixels;
    SizeOk(bands, sizes, sz);
    if more == [] {
      assert ids + more == ids;
    } else {
      var d := |more| - 1;
      assert (ids + more)[..|ids + more| - 1] == ids + more[..d];
      PixelBytesAppend(ids, more[..d], bands, sizes, sz, m);
    }
  }

  /** A pixel is the bytes of the bands asked for exactly if none were named: named ones are there twice. */
  lemma WantedIffAll(requested: seq<int>, bands: seq<seq<Cell>>, sizes: seq<nat>, sz: Size, m: nat)
    requires DataSet(bands, sizes, sz) && InRange(requested, |sizes|) && m < sz.Pixels()
    ensures KnownBands(BandIds(requested, |sizes|), sizes) && KnownBands(Wanted(requested, |sizes|), sizes)
    ensures PixelBytes(BandIds(requested, |sizes|), bands, sizes, sz, m) == PixelBytes(Wanted(requested, |sizes|), bands, sizes, sz, m)
            <==> requested == []
  {
    hide PixelBytes, Size.Pixels;
    var wanted := Wanted(requested, |sizes|);
    if requested != [] {
      PixelBytesAppend(wanted, wanted, bands, sizes, sz, m);
      TotalNext(wanted, sizes, 0);
    }
  }

  /** Byte b of `count` cells of one size, packed one behind the other. */
  lemma {:induction false} PackedByte(count: nat, src: seq<Cell>, bands: seq<seq<Cell>>, sizes: seq<nat>, size: nat,
                                      sz: Size, m: nat, b: nat)
    requires DataSet(bands, sizes, sz) && count == |src| <= |bands| && m < sz.Pixels() && b < count * size
    requires forall i :: 0 <= i < count ==> sizes[i] == size && m < |bands[i]| && bands[i][m] == src[i]
    ensures KnownBands(AllBands(count), sizes) && Total(AllBands(count), sizes) == count * size
    ensures size > 0 && 0 <= b / size < count && 0 <= b % size < |src[b / size]|
    ensures PixelBytes(AllBands(count), bands, sizes, sz, m)[b] == src[b / size][b % size]
  {
    hide Size.Pixels, Size.InBand;
    MulZero(count);
    MulZero(size);
    var d := count - 1;
    assert AllBands(count)[..d] == AllBands(d);
    TotalAll(d, sizes, size);
    assert count * size == d * size + size;
    assert BandOk(bands[d], sizes[d], sz);
    DivBounds(b, size);
    if b < d * size {
      PackedByte(d, src[..d], bands, sizes, size, sz, m, b);
    } else {
      DivUnique(b, size, d, b - d * size);
    }
  }

  lemma {:induction false} TotalAll(count: nat, sizes: seq<nat>, size: nat)
    requires count <= |sizes| && forall i :: 0 <= i < count ==> sizes[i] == size
    ensures Total(AllBands(count), sizes) == count * size
  {
    if count > 0 {
      assert AllBands(count)[..count - 1] == AllBands(count - 1);
      TotalAll(count - 1, sizes, size);
    }
  }

  /** Every byte of a pixel belongs to the field of exactly one listed band, so it is written once. */
  lemma {:induction false} OneFieldPerByte(ids: seq<nat>, sizes: seq<nat>, j: nat)
    requires KnownBands(ids, sizes) && j < Total(ids, sizes)
    ensures exists i :: 0 <= i < |ids| && InField(ids, sizes, i, j)
    ensures forall i, i' :: 0 <= i < i' < |ids| ==> !(InField(ids, sizes, i, j) && InField(ids, sizes, i', j))
  {
    var d := |ids| - 1;
    assert ids[..d + 1] == ids;
    if j < Total(ids[..d], sizes) {
      OneFieldPerByte(ids[..d], sizes, j);
      var i :| 0 <= i < d && InField(ids[..d], sizes, i, j);
      assert ids[..d][..i] == ids[..i] && ids[..d][..i + 1] == ids[..i + 1];
      assert InField(ids, sizes, i, j);
    } else {
      assert InField(ids, sizes, d, j);
    }
    forall i, i' | 0 <= i < i' < |ids| ensures !(InField(ids, sizes, i, j) && InField(ids, sizes, i', j)) {
      TotalGrows(ids[..i'], sizes, i + 1);
      assert ids[..i'][..i + 1] == ids[..i + 1];
    }
  }

  predicate InField(ids: seq<nat>, sizes: seq<nat>, i: nat, j: nat)
    requires KnownBands(ids, sizes) && i < |ids|
  {
    Total(ids[..i], sizes) <= j < Total(ids[..i + 1], sizes)
  }

  lemma PackedIndex(n: nat, numBands: nat, size: nat, b: nat)
    requires b < numBands * size && size > 0
    ensures (n * (numBands * size) + b) / size == n * numBands + b / size && (n * (numBands * size) + b) % size == b % size
  {
    DivBounds(b, size);
    Distribute(n, numBands, b / size, size);
    DivUnique(n * (numBands * size) + b, size, n * numBands + b / size, b % size);
  }

  lemma EncodedDataSet(src: seq<Cell>, sz: Size, numBands: nat, size: nat, isBoolean: bool, bands: seq<seq<Cell>>, sizes: seq<nat>)
    requires sz.Ok() && |src| == sz.Pixels() * numBands && size >= 1 && (isBoolean ==> size == 1)
    requires forall i :: 0 <= i < |src| ==> |src[i]| == size
    requires |bands| == |sizes| == numBands && forall b :: 0 <= b < numBands ==> sizes[b] == size
    requires forall b :: 0 <= b < numBands ==> bands[b] == EncodedBand(src, sz, numBands, b, isBoolean)
    ensures DataSet(bands, sizes, sz)
  {
    hide Size.Pixels;
    forall b | 0 <= b < numBands ensures BandOk(bands[b], sizes[b], sz) {
      var band := EncodedBand(src, sz, numBands, b, isBoolean);
      assert bands[b] == band;
      forall k | 0 <= k < |band| ensures |band[k]| == size {
        DivBounds(k, sz.width);
        RowBound(sz, k);
        OffsetInSource(sz, numBands, b, k / sz.width, k % sz.width);
      }
    }
  }

  /** Encoding an array and decoding all its bands gives the bytes of the array back, booleans as 0 and 255. */
  lemma EncodeDecode(src: seq<Cell>, sz: Size, numBands: nat, size: nat, isBoolean: bool,
                     bands: seq<seq<Cell>>, sizes: seq<nat>, tile: seq<byte>)
    requires sz.Ok() && |src| == sz.Pixels() * numBands && (sz.Pixels() - 1) * numBands < WORD
    requires size >= 1 && (isBoolean ==> size == 1) && forall i :: 0 <= i < |src| ==> |src[i]| == size
    requires |bands| == |sizes| == numBands && forall b :: 0 <= b < numBands ==> sizes[b] == size
    requires forall b :: 0 <= b < numBands ==> bands[b] == EncodedBand(src, sz, numBands, b, isBoolean)
    requires DataSet(bands, sizes, sz) && |tile| == sz.Pixels() * Total(AllBands(numBands), sizes)
    requires AllDone(tile, AllBands(numBands), bands, sizes, sz, Total(AllBands(numBands), sizes))
    ensures |tile| == |src| * size
    ensures forall k :: 0 <= k < |tile| ==> TileByteRestored(src, size, isBoolean, tile, k)
  {
    hide Size.Pixels, Size.InBand, EncodedBand, DataSet, ByteDone, PixelBytes, Total;
    TotalAll(numBands, sizes, size);
    var step := numBands * size;
    Distribute(sz.Pixels(), numBands, 0, size);
    forall k | 0 <= k < |tile| ensures TileByteRestored(src, size, isBoolean, tile, k) {
      RestoredByte(src, sz, numBands, size, isBoolean, bands, sizes, tile, k);
    }
  }

  predicate TileByteRestored(src: seq<Cell>, size: nat, isBoolean: bool, tile: seq<byte>, k: nat)
    requires k < |tile| && size >= 1
  {
    && k / size < |src|
    && if isBoolean then tile[k] == (if src[k / size] == [1] then 255 else 0)
       else k % size < |src[k / size]| && tile[k] == src[k / size][k % size]
  }

  lemma RestoredByte(src: seq<Cell>, sz: Size, numBands: nat, size: nat, isBoolean: bool,
                     bands: seq<seq<Cell>>, sizes: seq<nat>, tile: seq<byte>, k: nat)
    requires sz.Ok() && |src| == sz.Pixels() * numBands && (sz.Pixels() - 1) * numBands < WORD
    requires size >= 1 && |bands| == |sizes| == numBands && forall b :: 0 <= b < numBands ==> sizes[b] == size
    requires forall b :: 0 <= b < numBands ==> bands[b] == EncodedBand(src, sz, numBands, b, isBoolean)
    requires DataSet(bands, sizes, sz) && k < |tile| == sz.Pixels() * (numBands * size)
    requires Total(AllBands(numBands), sizes) == numBands * size
    requires AllDone(tile, AllBands(numBands), bands, sizes, sz, numBands * size)
    ensures k / size < |src| && k % size < |Converted(src[k / size], isBoolean)|
    ensures tile[k] == Converted(src[k / size], isBoolean)[k % size]
  {
    hide Size.Pixels, Size.InBand, EncodedBand, DataSet, PixelBytes, Total, Converted;
    var step := numBands * size;
    PixelOf(sz, step, k);
    var n, b := k / step, k % step;
    InBandBound(sz, n);
    var m := sz.InBand(n);
    CellInTile(sz, numBands, n);
    var pixel := seq(numBands, i requires 0 <= i < numBands => Converted(src[n * numBands + i], isBoolean));
    forall i | 0 <= i < numBands ensures m < |bands[i]| && bands[i][m] == pixel[i] {
      EncodedCell(src, sz, numBands, i, isBoolean, n);
    }
    PackedByte(numBands, pixel, bands, sizes, size, sz, m, b);
    PackedIndex(n, numBands, size, b);
    assert ByteDone(tile, AllBands(numBands), bands, sizes, sz, step, k);
  }

  /** `encodeImage`, and `decodeImage` with no bands requested, over one data set in memory. */
  method EncodeThenDecode(src: array<Cell>, sz: Size, numBands: nat, size: nat, isBoolean: bool) returns (tile: seq<byte>)
    requires sz.Ok() && numBands >= 1 && src.Length == sz.Pixels() * numBands && (sz.Pixels() - 1) * numBands < WORD
    requires size >= 1 && (isBoolean ==> size == 1) && forall i :: 0 <= i < src.Length ==> |src[i]| == size
    ensures |tile| == src.Length * size
    ensures forall k :: 0 <= k < |tile| ==> TileByteRestored(src[..], size, isBoolean, tile, k)
  {
    hide Size.Pixels, EncodedBand, DataSet, AllDone, TileByteRestored, Total, FirstFault, TileAfter, BandList;
    var bands := EncodeImage(src, sz, numBands, isBoolean);
    ghost var cells := src[..];
    var sizes := seq(numBands, _ => size);
    var ids := GetBandIds([], numBands);
    EncodedDataSet(cells, sz, numBands, size, isBoolean, bands, sizes);
    RequestedList([], sizes);
    AllBandsRight(sizes, sz);
    var decoded := DecodeImage(ids.value, bands, sizes, sz);
    ghost var memory :| |memory| == sz.Pixels() * Total(ids.value, sizes)
                        && decoded == Done(TileAfter(memory, ids.value, bands, sizes, sz, |ids.value|));
    assert DecodedRight(ids.value, bands, sizes, sz, memory);
    EncodeDecode(cells, sz, numBands, size, isBoolean, bands, sizes, decoded.tile);
    tile := decoded.tile;
  }
}

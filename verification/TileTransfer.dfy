/**
 The transfer of an MDD collection: the server's cursor over MDDs, tiles and blocks, and the client
 loops that drive it with remote calls and rebuild each MDD.

 Every remote call is answered here; lost calls and replies, and what a left-over count does to a whole transfer, are in
 `TransferFaults`.
 */
module TileTransfer {
  import opened Boxes
  import opened Prelude
  import opened TileAssembly

  /** One MDD of the transfer collection: its load domain, the size of its cell type, and its tiles. */
  datatype Mdd = Mdd(domain: Box, cellSize: nat, tiles: seq<Tile>)

  /**
   The part of `RPCMarray` the client reads. The block of a wild reply lies outside the tile: the offset of the
   block has wrapped around.
   */
  datatype TileReply = TileReply(domain: Box, cellTypeLength: nat, block: seq<byte>) | WildReply

  /** The bytes of a tile that go into its first block. */
  function FirstBlock(size: nat, maxBuffer: nat): nat {
    if size > maxBuffer then maxBuffer else size
  }

  /** Where the server's next block of a tile lies. */
  datatype Block = Range(from: nat, to: nat) | Outside

  /**
   The bytes of a tile that the server sends next, for a count of outstanding bytes: a tile that fits the transfer
   buffer goes as a whole, and a count other than 0 is taken to be that of a tile already begun. The offset is
   unsigned, so a count larger than the tile leads outside it.
   */
  function BlockRange(size: nat, outstanding: nat, maxBuffer: nat): (r: Block)
    ensures r.Range? ==> r.from <= r.to <= size
  {
    if size <= maxBuffer then Range(0, size)
    else if outstanding == 0 then Range(0, maxBuffer)
    else if outstanding > size then Outside
    else Range(size - outstanding, size - outstanding + Min(outstanding, maxBuffer))
  }

  /** A count left over from an aborted transfer does no harm exactly for tiles that fit the buffer or have that size. */
  lemma StaleCountIff(size: nat, stale: nat, maxBuffer: nat)
    ensures BlockRange(size, stale, maxBuffer) == BlockRange(size, 0, maxBuffer) <==>
            size <= maxBuffer || stale == 0 || stale == size
  {
  }

  /** A fresh tile of 10 bytes starts with its last 3 if 3 bytes are left over, and outside of it if 11 are. */
  lemma StaleCountExample()
    ensures BlockRange(10, 0, 4) == Range(0, 4) && BlockRange(10, 3, 4) == Range(7, 10) && BlockRange(10, 11, 4) == Outside
  {
  }

  /** The size of the first tile that does not fit the transfer buffer, from tile t of MDD i on. */
  function FirstLarge(c: seq<Mdd>, i: nat, t: nat, maxBuffer: nat): Option<nat>
    decreases |c| - i, if i < |c| then |c[i].tiles| - t else 0
  {
    if i >= |c| then None
    else if t >= |c[i].tiles| then FirstLarge(c, i + 1, 0, maxBuffer)
    else if |c[i].tiles[t].data| > maxBuffer then Some(|c[i].tiles[t].data|)
    else FirstLarge(c, i, t + 1, maxBuffer)
  }

  /** The count does no harm to the transfer from tile t of MDD i on. */
  predicate Clean(c: seq<Mdd>, i: nat, t: nat, count: nat, maxBuffer: nat) {
    count == 0 || FirstLarge(c, i, t, maxBuffer) == None || FirstLarge(c, i, t, maxBuffer) == Some(count)
  }

  /** That is, exactly if the first tile for which the count is looked at starts with its first block. */
  lemma CleanIff(c: seq<Mdd>, i: nat, t: nat, count: nat, maxBuffer: nat)
    ensures Clean(c, i, t, count, maxBuffer) <==>
            match FirstLarge(c, i, t, maxBuffer)
            case None => true
            case Some(size) => BlockRange(size, count, maxBuffer) == BlockRange(size, 0, maxBuffer)
  {
    hide FirstLarge;
    FirstLargeIsLarge(c, i, t, maxBuffer);
  }

  lemma {:induction false} FirstLargeIsLarge(c: seq<Mdd>, i: nat, t: nat, maxBuffer: nat)
    ensures FirstLarge(c, i, t, maxBuffer).Some? ==> FirstLarge(c, i, t, maxBuffer).value > maxBuffer
    decreases |c| - i, if i < |c| then |c[i].tiles| - t else 0
  {
    if i < |c| {
      if t < |c[i].tiles| { FirstLargeIsLarge(c, i, t + 1, maxBuffer); } else { FirstLargeIsLarge(c, i + 1, 0, maxBuffer); }
    }
  }

  /** A tile that fits the buffer leaves the count to the tiles behind it. */
  lemma CleanBehind(c: seq<Mdd>, i: nat, t: nat, count: nat, maxBuffer: nat)
    requires i < |c| && t < |c[i].tiles| && Clean(c, i, t, count, maxBuffer)
    ensures |c[i].tiles[t].data| <= maxBuffer ==> Clean(c, i, t + 1, count, maxBuffer)
    ensures |c[i].tiles[t].data| <= maxBuffer && t + 1 == |c[i].tiles| ==> Clean(c, i + 1, 0, count, maxBuffer)
    ensures |c[i].tiles[t].data| > maxBuffer ==> count == 0 || count == |c[i].tiles[t].data|
  {
  }

  // ---------- server ----------

  class ServerComm {
    const maxTransferBufferSize: nat
    var transferData: Option<seq<Mdd>>
    var dataIter: nat
    var transTiles: Option<seq<Tile>>
    var tileIter: nat
    var bytesToTransfer: nat

    ghost predicate Valid()
      reads this
    {
      && maxTransferBufferSize >= 1
      && (transferData.Some? ==> dataIter <= |transferData.value|)
      && (transTiles.Some? ==>
            && transferData.Some? && dataIter < |transferData.value|
            && transTiles.value == transferData.value[dataIter].tiles
            && tileIter <= |transTiles.value|)
    }

    constructor (maxTransferBufferSize: nat, c: seq<Mdd>)
      requires maxTransferBufferSize >= 1
      ensures Valid() && this.maxTransferBufferSize == maxTransferBufferSize
      ensures transferData == Some(c) && dataIter == 0 && transTiles.None? && bytesToTransfer == 0
    {
      this.maxTransferBufferSize := maxTransferBufferSize;
      transferData, dataIter, transTiles, tileIter, bytesToTransfer := Some(c), 0, None, 0, 0;
    }

    /** The next `GetNextTile` starts a fresh tile t of MDD i. */
    ghost predicate AtTile(i: nat, t: nat)
      reads this
    {
      && Valid() && transferData.Some? && dataIter == i && i < |transferData.value|
      && transTiles.Some? && tileIter == t && t < |transTiles.value|
      && Clean(transferData.value, i, t, bytesToTransfer, maxTransferBufferSize)
    }

    /** The next `GetNextTile` continues tile t of MDD i, of which `sent` bytes are delivered. */
    ghost predicate InTile(i: nat, t: nat, sent: nat)
      reads this
    {
      && Valid() && transferData.Some? && dataIter == i && i < |transferData.value|
      && transTiles.Some? && tileIter == t && t < |transTiles.value|
      && bytesToTransfer >= 1 && sent + bytesToTransfer == |transTiles.value[t].data|
      && sent >= maxTransferBufferSize
    }

    /** MDD i - 1 is delivered completely. */
    ghost predicate BetweenMdds(i: nat)
      reads this
    {
      && Valid() && transferData.Some? && dataIter == i && transTiles.None?
      && Clean(transferData.value, i, 0, bytesToTransfer, maxTransferBufferSize)
    }

    /** Where the cursor stands once tile t of MDD i is delivered, and the status that says so. */
    ghost predicate AfterTile(i: nat, t: nat, status: nat)
      reads this
    {
      && transferData.Some? && i < |transferData.value|
      && var more := t + 1 < |transferData.value[i].tiles|;
         if more then AtTile(i, t + 1) && status == 2
         else BetweenMdds(i + 1) && status == (if i + 1 < |transferData.value| then 1 else 0)
    }

    method GetNextMDD() returns (status: nat, domain: Box)
      requires Valid()
      modifies this
      ensures Valid() && bytesToTransfer == old(bytesToTransfer)
      ensures status == if old(transferData).None? then 2
                        else if old(dataIter) == |old(transferData).value| then 1
                        else if old(transferData).value[old(dataIter)].tiles == [] then 2 else 0
      ensures status == 0 ==>
                && transferData == old(transferData) && dataIter == old(dataIter)
                && domain == transferData.value[dataIter].domain
                && transTiles.Some? && tileIter == 0
      ensures status == 1 ==> transferData.None? && transTiles.None? && domain == []
    {
      domain := [];
      if transferData.Some? && dataIter != |transferData.value| {
        var mdd := transferData.value[dataIter];
        domain := mdd.domain;
        transTiles, tileIter := Some(mdd.tiles), 0;
        status := if |mdd.tiles| > 0 then 0 else 2;
      } else if transferData.Some? {
        status := 1;
        ReleaseTransferStructures();
      } else {
        status := 2;
      }
    }

    /** `bytesToTransfer` survives a release, as in the source. */
    method ReleaseTransferStructures()
      requires Valid()
      modifies this
      ensures Valid() && transferData.None? && transTiles.None? && bytesToTransfer == old(bytesToTransfer)
    {
      transferData, transTiles := None, None;
    }

    method GetNextTile() returns (status: nat, reply: TileReply)
      requires Valid() && (transTiles.Some? ==> tileIter < |transTiles.value|)
      modifies this
      ensures Valid() && transferData == old(transferData)
      ensures old(transTiles).None? <==> status == 4
      ensures status == 4 ==> transTiles.None?
      ensures old(transTiles).Some? ==>
                var data := old(transTiles).value[old(tileIter)].data;
                match BlockRange(|data|, old(bytesToTransfer), maxTransferBufferSize)
                case Outside => reply == WildReply
                case Range(from, to) => reply.TileReply? && reply.block == data[from..to]
      ensures var i, t := old(dataIter), old(tileIter);
              old(AtTile(i, t)) ==>
                var tile, size := transferData.value[i].tiles[t], |transferData.value[i].tiles[t].data|;
                && reply == TileReply(tile.domain, transferData.value[i].cellSize,
                                      tile.data[..FirstBlock(size, maxTransferBufferSize)])
                && (if size > maxTransferBufferSize
                    then status == 3 && InTile(i, t, maxTransferBufferSize)
                    else AfterTile(i, t, status))
      ensures forall sent: nat :: old(InTile(dataIter, tileIter, sent)) ==>
                var i, t := old(dataIter), old(tileIter);
                var tile := transferData.value[i].tiles[t];
                && sent < |tile.data| && reply.TileReply?
                && var n := FirstBlock(|tile.data| - sent, maxTransferBufferSize);
                && reply.block == tile.data[sent..sent + n]
                && (if sent + n < |tile.data|
                    then status == 3 && InTile(i, t, sent + n)
                    else AfterTile(i, t, status))
    {
      if transTiles.None? { return 4, TileReply([], 0, []); }
      hide FirstLarge;
      if transferData.Some? {
        ghost var c, i, t := transferData.value, dataIter, tileIter;
        if Clean(c, i, t, bytesToTransfer, maxTransferBufferSize) { CleanBehind(c, i, t, bytesToTransfer, maxTransferBufferSize); }
      }
      var tile := transTiles.value[tileIter];
      var totalSize, transOffset, transSize := |tile.data|, 0, |tile.data|;
      var statusValue;
      if totalSize > maxTransferBufferSize {
        if bytesToTransfer != 0 {
          transOffset := totalSize - bytesToTransfer;
          if bytesToTransfer > maxTransferBufferSize {
            transSize, statusValue := maxTransferBufferSize, 1;
          } else {
            transSize, statusValue := bytesToTransfer, 2;
          }
          bytesToTransfer := bytesToTransfer - transSize;
        } else {
          transSize := maxTransferBufferSize;
          bytesToTransfer := totalSize - transSize;
          statusValue := 1;
        }
      } else {
        statusValue := 3;
      }
      reply := if transOffset < 0 then WildReply
               else TileReply(tile.domain, transferData.value[dataIter].cellSize, tile.data[transOffset..transOffset + transSize]);
      if statusValue > 1 { tileIter := tileIter + 1; }
      if tileIter == |transTiles.value| {
        transTiles := None;
        dataIter := dataIter + 1;
        status := if dataIter != |transferData.value| then 1 else 0;
      } else {
        status := if statusValue == 1 then 3 else 2;
      }
    }

    method EndTransfer()
      requires Valid()
      modifies this
      ensures Valid() && transferData.None? && transTiles.None? && bytesToTransfer == old(bytesToTransfer)
    {
      ReleaseTransferStructures();
    }
  }

  // ---------- client ----------

  /**
   `concatArrayData`: appends a block to a buffer filled up to `destLevel`. The buffer is extended,
   with a sixteenth to spare, exactly when the block does not fit.
   */
  method ConcatArrayData(source: seq<byte>, dest: array<byte>, destLevel: nat)
    returns (dest': array<byte>, destLevel': nat)
    requires destLevel <= dest.Length
    modifies dest
    ensures destLevel' == destLevel + |source| <= dest'.Length
    ensures dest'[..destLevel'] == old(dest[..destLevel]) + source
    ensures dest' == dest <==> destLevel' <= dest.Length
    ensures dest' != dest ==> fresh(dest') && dest'.Length == destLevel' + destLevel' / 16
    ensures dest' == dest ==> dest[destLevel'..] == old(dest[destLevel'..])
  {
    dest' := dest;
    if destLevel + |source| > dest.Length {
      var newSize := destLevel + |source|;
      newSize := newSize + newSize / 16;
      dest' := new byte[newSize];
      forall i | 0 <= i < destLevel { dest'[i] := dest[i]; }
      assert dest'[..destLevel] == dest[..destLevel];
    }
    forall i | destLevel <= i < destLevel + |source| { dest'[i] := source[i - destLevel]; }
    destLevel' := destLevel + |source|;
  }

  /**
   The buffer `getMDDCore` allocates for a tile is never replaced: either the tile holds no more than
   its cells, or it comes in one block.
   */
  predicate TileBufferSuffices(t: Tile, cellSize: nat, maxBuffer: nat)
    requires Valid(t.domain)
  {
    |t.data| <= CellCount(t.domain) * cellSize || |t.data| <= maxBuffer
  }

  /**
   The client can insert tile i: it reads no freed buffer, and does not divide by zero in `cell_point`, which
   it does not call for a single tile as large as the MDD.
   */
  predicate Usable(mdd: Mdd, i: nat, maxBuffer: nat)
    requires i < |mdd.tiles| && Valid(mdd.tiles[i].domain)
  {
    && TileBufferSuffices(mdd.tiles[i], mdd.cellSize, maxBuffer)
    && (CellCount(mdd.tiles[i].domain) < WORD || (|mdd.tiles| == 1 && mdd.tiles[i].domain == mdd.domain))
  }

  /** The server's side of an MDD: its tiles lie in its domain and carry their cells. */
  predicate WellMade(mdd: Mdd) { Valid(mdd.domain) && AllFit(mdd.domain, mdd.cellSize, mdd.tiles) }

  predicate Transferable(mdd: Mdd, maxBuffer: nat) {
    WellMade(mdd) && forall i :: 0 <= i < |mdd.tiles| ==> Usable(mdd, i, maxBuffer)
  }

  /** A client MDD: `set_array`, `set_array_size`, `set_type_length`. */
  datatype Marray = Marray(domain: Box, typeLength: nat, data: array<byte>)

  /** The array holds the given tiles of the MDD, over zeroes. */
  ghost predicate HoldsTiles(data: array<byte>, m: Box, len: nat, tiles: seq<Tile>)
    reads data
  {
    && Valid(m) && AllFit(m, len, tiles) && CellCount(m) * len <= data.Length
    && data[..CellCount(m) * len] == Assemble(m, len, tiles)
  }

  /** The client holds the MDD's cells. */
  ghost predicate Holds(r: Marray, mdd: Mdd)
    reads r.data
  {
    && r.domain == mdd.domain && r.typeLength == mdd.cellSize
    && HoldsTiles(r.data, mdd.domain, mdd.cellSize, mdd.tiles)
  }

  /** The block loop of `getMDDCore`: appends the outstanding blocks of tile t to `buffer`. */
  method ReceiveBlocks(server: ServerComm, buffer: array<byte>, filled: nat, ghost i: nat, ghost t: nat)
    returns (subStatus: nat, memCopy: array<byte>)
    requires server.InTile(i, t, filled)
    requires filled <= buffer.Length && buffer[..filled] == server.transferData.value[i].tiles[t].data[..filled]
    modifies server, buffer
    ensures server.transferData == old(server.transferData)
    ensures server.AfterTile(i, t, subStatus)
    ensures var data := server.transferData.value[i].tiles[t].data;
            && (memCopy == buffer || fresh(memCopy)) && |data| <= memCopy.Length && memCopy[..|data|] == data
            && (memCopy == buffer <==> |data| <= buffer.Length)
  {
    ghost var data := server.transferData.value[i].tiles[t].data;
    var blockOffset := filled;
    memCopy, subStatus := buffer, 3;
    while subStatus == 3
      invariant server.transferData == old(server.transferData)
      invariant subStatus == 3 ==> server.InTile(i, t, blockOffset)
      invariant subStatus != 3 ==> blockOffset == |data| && server.AfterTile(i, t, subStatus)
      invariant blockOffset <= |data| && blockOffset <= memCopy.Length && memCopy[..blockOffset] == data[..blockOffset]
      invariant memCopy == buffer || fresh(memCopy)
      invariant memCopy == buffer <==> blockOffset <= buffer.Length
      decreases |data| - blockOffset
    {
      ghost var before := blockOffset;
      var reply;
      subStatus, reply := server.GetNextTile();
      memCopy, blockOffset := ConcatArrayData(reply.block, memCopy, blockOffset);
      assert data[..before] + data[before..blockOffset] == data[..blockOffset];
    }
    assert data[..blockOffset] == data;
  }

  /**
   Receives one tile, in one block or several. `tile` is the array the temporary tile was given and
   `memCopy` the buffer the blocks end up in; a replaced buffer leaves the tile without its memory.
   */
  method ReceiveTile(server: ServerComm, first: bool, typeLength: nat, ghost i: nat, ghost t: nat)
    returns (status: nat, domain: Box, typeLength': nat, tile: array<byte>, memCopy: array<byte>)
    requires server.AtTile(i, t)
    requires Valid(server.transTiles.value[t].domain)
    requires !first ==> typeLength == server.transferData.value[i].cellSize
    modifies server
    ensures server.transferData == old(server.transferData)
    ensures server.AfterTile(i, t, status)
    ensures typeLength' == server.transferData.value[i].cellSize
    ensures var sent := server.transferData.value[i].tiles[t];
            && domain == sent.domain
            && fresh(tile) && fresh(memCopy)
            && |sent.data| <= memCopy.Length && memCopy[..|sent.data|] == sent.data
            && (tile == memCopy <==> TileBufferSuffices(sent, typeLength', server.maxTransferBufferSize))
  {
    hide CellCount, Valid;
    ghost var data := server.transferData.value[i].tiles[t].data;
    var reply;
    status, reply := server.GetNextTile();
    typeLength' := if first then reply.cellTypeLength else typeLength;
    domain := reply.domain;
    MulMono(0, CellCount(domain), typeLength');
    var memCopyLen := CellCount(domain) * typeLength';
    if memCopyLen < |reply.block| { memCopyLen := |reply.block|; }
    memCopy := new byte[memCopyLen];
    tile := memCopy;
    var blockOffset := 0;
    memCopy, blockOffset := ConcatArrayData(reply.block, memCopy, blockOffset);
    if status == 3 {
      status, memCopy := ReceiveBlocks(server, memCopy, blockOffset, i, t);
    }
  }

  /**
   `getMDDCore`: receives the tiles of MDD i and lays each into the MDD's memory. Without a result the code has
   read a freed buffer or divided by zero, and nothing is known from there on.
   */
  method GetMDDCore(server: ServerComm, mddDomain: Box, ghost i: nat) returns (status: nat, r: Option<Marray>)
    requires server.AtTile(i, 0)
    requires Valid(mddDomain) && mddDomain == server.transferData.value[i].domain
    requires WellMade(server.transferData.value[i])
    modifies server
    ensures server.transferData == old(server.transferData)
    ensures r.Some? <==> Transferable(server.transferData.value[i], server.maxTransferBufferSize)
    ensures r.Some? ==>
      && server.BetweenMdds(i + 1) && status == (if i + 1 < |server.transferData.value| then 1 else 0)
      && fresh(r.value.data) && Holds(r.value, server.transferData.value[i])
  {
    hide CellCount, Assemble, Fits, TileBufferSuffices;
    ghost var mdd := server.transferData.value[i];
    ghost var tiles := mdd.tiles;
    var typeLength, tileCntr := 0, 0;
    var data := new byte[0];
    status := 2;
    while status == 2 || status == 3
      invariant server.transferData == old(server.transferData)
      invariant tileCntr <= |tiles|
      invariant if tileCntr < |tiles| then server.AtTile(i, tileCntr) && status == 2
                else server.BetweenMdds(i + 1) && status == if i + 1 < |server.transferData.value| then 1 else 0
      invariant tileCntr > 0 ==> typeLength == mdd.cellSize
      invariant fresh(data)
      invariant tileCntr > 0 ==> HoldsTiles(data, mddDomain, typeLength, tiles[..tileCntr])
      invariant 0 < tileCntr < |tiles| ==> CellCount(mddDomain) * typeLength == data.Length
      invariant forall j :: 0 <= j < tileCntr ==> Valid(tiles[j].domain) && Usable(mdd, j, server.maxTransferBufferSize)
      decreases |tiles| - tileCntr
    {
      FitsValid(mddDomain, mdd.cellSize, tiles[tileCntr]);
      var domain, tile, memCopy;
      status, domain, typeLength, tile, memCopy := ReceiveTile(server, tileCntr == 0, typeLength, i, tileCntr);
      if tile != memCopy { assert !Usable(mdd, tileCntr, server.maxTransferBufferSize); return status, None; }
      tileCntr := tileCntr + 1;
      assert tiles[..tileCntr][..tileCntr - 1] == tiles[..tileCntr - 1];
      var ok;
      ok, data := InsertTile(data, mddDomain, typeLength, tile, domain, status, tileCntr, tiles[..tileCntr]);
      if !ok { assert !Usable(mdd, tileCntr - 1, server.maxTransferBufferSize); return status, None; }
    }
    assert tiles[..tileCntr] == tiles;
    r := Some(Marray(mddDomain, typeLength, data));
  }

  lemma FitsValid(m: Box, len: nat, t: Tile)
    requires Fits(m, len, t)
    ensures Valid(t.domain)
  {
  }

  /** The tile has arrived completely: take its memory over, or lay it into the MDD's. */
  method InsertTile(marray: array<byte>, m: Box, len: nat, tile: array<byte>, domain: Box, status: nat, tileCntr: nat,
                    ghost tiles: seq<Tile>)
    returns (ok: bool, data: array<byte>)
    requires tileCntr == |tiles| > 0 && AllFit(m, len, tiles) && marray != tile
    requires tiles[|tiles| - 1].domain == domain && |tiles[|tiles| - 1].data| <= tile.Length
    requires tile[..|tiles[|tiles| - 1].data|] == tiles[|tiles| - 1].data
    requires tileCntr > 1 ==> HoldsTiles(marray, m, len, tiles[..|tiles| - 1]) && marray.Length == CellCount(m) * len
    modifies marray
    ensures data == marray || data == tile || fresh(data)
    ensures ok <==> CellCount(domain) < WORD || (status < 2 && tileCntr == 1 && domain == m)
    ensures ok ==> HoldsTiles(data, m, len, tiles)
    ensures ok && (status >= 2 || tileCntr > 1) ==> data.Length == CellCount(m) * len && data != tile
  {
    ghost var last := tiles[|tiles| - 1];
    ghost var whole := Tile(domain, tile[..]);
    assert Fits(m, len, last);
    MulMono(0, CellCount(m), len);
    var size := CellCount(m) * len;
    if status < 2 && tileCntr == 1 && domain == m {
      SingleTileShortcut(m, len, last.data);
      assert tiles == [last];
      return true, tile;
    }
    if tileCntr == 1 {
      data := new byte[size](_ => 0);
      assert tiles[..|tiles| - 1] == [];
      assert data[..] == Assemble(m, len, tiles[..|tiles| - 1]);
    } else {
      data := marray;
    }
    ghost var base := data[..];
    ok := PasteLines(data, m, len, tile, domain);
    PaddingIgnored(base, m, len, last, whole);
    assert data[..size] == data[..];
  }

  /** Only the cells of a tile matter: bytes behind them do not change what is pasted. */
  lemma PaddingIgnored(base: seq<byte>, m: Box, len: nat, t: Tile, longer: Tile)
    requires Fits(m, len, t) && Fits(m, len, longer) && |base| == CellCount(m) * len
    requires t.domain == longer.domain && |t.data| <= |longer.data| && longer.data[..|t.data|] == t.data
    ensures Pasted(base, m, len, t) == Pasted(base, m, len, longer)
  {
    hide Offset, CellCount, PointAt, PartByte;
    forall k: nat | k < |base|
      ensures PartByte(base, m, len, t, CellCount(t.domain), k) == PartByte(base, m, len, longer, CellCount(t.domain), k)
    {
      PaddingPart(base, m, len, t, longer, CellCount(t.domain), k);
    }
  }

  lemma PaddingPart(base: seq<byte>, m: Box, len: nat, t: Tile, longer: Tile, n: nat, k: nat)
    requires Fits(m, len, t) && Fits(m, len, longer) && |base| == CellCount(m) * len && k < |base|
    requires t.domain == longer.domain && |t.data| <= |longer.data| && longer.data[..|t.data|] == t.data
    ensures PartByte(base, m, len, t, n, k) == PartByte(base, m, len, longer, n, k)
  {
    hide Offset, CellCount, PointAt, TileByte;
    CellOfByte(CellCount(m), len, k);
    var p := PointAt(m, k / len);
    if Covers(t.domain, p) { PaddingByte(len, t, longer, p, k % len); }
  }

  lemma PaddingByte(len: nat, t: Tile, longer: Tile, p: Point, r: nat)
    requires Valid(t.domain) && Covers(t.domain, p) && r < len && |t.data| >= CellCount(t.domain) * len
    requires t.domain == longer.domain && |t.data| <= |longer.data| && longer.data[..|t.data|] == t.data
    ensures TileByte(len, t, p, r) == TileByte(len, longer, p, r)
  {
    hide Offset, CellCount;
    ByteInTile(len, t, p, r);
    var x := Offset(t.domain, p) * len + r;
    assert longer.data[x] == longer.data[..|t.data|][x];
  }

  /** The number of leading MDDs that have tiles, all of them usable. */
  function Deliverable(c: seq<Mdd>, maxBuffer: nat): (n: nat)
    ensures n <= |c|
    ensures forall i :: 0 <= i < n ==> c[i].tiles != [] && Transferable(c[i], maxBuffer)
    ensures n < |c| ==> c[n].tiles == [] || !Transferable(c[n], maxBuffer)
  {
    if c == [] || c[0].tiles == [] || !Transferable(c[0], maxBuffer) then 0 else 1 + Deliverable(c[1..], maxBuffer)
  }

  /**
   `getMDDCollection`. The transfer succeeds exactly when there is a non-empty transfer collection all of
   whose MDDs have tiles that the client can use; the client ends with one array per delivered MDD, in order,
   each holding the MDD.
   */
  method GetMDDCollection(server: ServerComm) returns (ok: bool, coll: seq<Marray>)
    requires server.Valid() && server.dataIter == 0 && server.transTiles.None?
    requires server.transferData.Some? ==>
               Clean(server.transferData.value, 0, 0, server.bytesToTransfer, server.maxTransferBufferSize)
    requires server.transferData.Some? ==> forall mdd :: mdd in server.transferData.value ==> WellMade(mdd)
    modifies server
    ensures var c, max := old(server.transferData), server.maxTransferBufferSize;
            && (ok <==> c.Some? && c.value != [] && Deliverable(c.value, max) == |c.value|)
            && |coll| == if c.Some? then Deliverable(c.value, max) else 0
    ensures forall i :: 0 <= i < |coll| ==> fresh(coll[i].data) && Holds(coll[i], old(server.transferData).value[i])
    ensures ok ==> server.transferData.None?
  {
    hide Holds, Transferable, Valid, Deliverable, AllFit;
    coll := [];
    var mddStatus := 0;
    ghost var c := server.transferData;
    ghost var n := if c.Some? then Deliverable(c.value, server.maxTransferBufferSize) else 0;
    while mddStatus == 0
      invariant server.Valid() && server.transferData == c && server.transTiles.None?
      invariant c.Some? ==> Clean(c.value, |coll|, 0, server.bytesToTransfer, server.maxTransferBufferSize)
      invariant server.dataIter == |coll| <= n
      invariant mddStatus == 0
      invariant c.Some? ==> |coll| < |c.value| || c.value == []
      invariant forall i :: 0 <= i < |coll| ==> fresh(coll[i].data) && Holds(coll[i], c.value[i])
      decreases n - |coll|
    {
      var domain;
      mddStatus, domain := server.GetNextMDD();
      if mddStatus == 2 { return false, coll; }
      if mddStatus == 1 {
        var status, _ := server.GetNextTile();
        assert status == 4;
        return false, coll;
      }
      assert c.value[|coll|] in c.value;
      var status, r := GetMDDCore(server, domain, |coll|);
      if r.None? { return false, coll; }
      coll := coll + [r.value];
      if status == 0 { break; }
    }
    server.EndTransfer();
    ok := true;
  }

  /** The server holds array `a` over the MDD's domain, cut into tiles that cover the domain. */
  ghost predicate TilesOf(mdd: Mdd, a: seq<byte>) {
    && Valid(mdd.domain) && mdd.domain != [] && mdd.cellSize >= 1
    && |a| == CellCount(mdd.domain) * mdd.cellSize
    && (forall t :: t in mdd.tiles ==>
          Valid(t.domain) && Inside(t.domain, mdd.domain) && t.data == Cut(a, mdd.domain, mdd.cellSize, t.domain))
    && (forall p :: Covers(mdd.domain, p) ==> exists i :: 0 <= i < |mdd.tiles| && Covers(mdd.tiles[i].domain, p))
  }

  /**
   Uncompressed tiles are transferable whatever the size of the transfer buffer, if they have fewer than 2^32
   cells or need no copy, and what the client then holds is the array the server cut them from.
   */
  lemma ArrayDelivered(mdd: Mdd, a: seq<byte>, maxBuffer: nat)
    requires TilesOf(mdd, a)
    ensures WellMade(mdd)
    ensures Transferable(mdd, maxBuffer) <==>
            (|mdd.tiles| == 1 && mdd.tiles[0].domain == mdd.domain)
            || forall i :: 0 <= i < |mdd.tiles| ==> CellCount(mdd.tiles[i].domain) < WORD
    ensures Assemble(mdd.domain, mdd.cellSize, mdd.tiles) == a
    ensures mdd.tiles != []
  {
    CutThenAssemble(a, mdd.domain, mdd.cellSize, mdd.tiles);
    var p := PointAt(mdd.domain, 0);
    PointAtCovered(mdd.domain, 0);
    assert Covers(mdd.domain, p);
    var whole := |mdd.tiles| == 1 && mdd.tiles[0].domain == mdd.domain;
    forall i | 0 <= i < |mdd.tiles|
      ensures Usable(mdd, i, maxBuffer) <==> whole || CellCount(mdd.tiles[i].domain) < WORD
    {
      assert mdd.tiles[i] in mdd.tiles;
    }
    if !whole && Transferable(mdd, maxBuffer) {
      forall i | 0 <= i < |mdd.tiles| ensures CellCount(mdd.tiles[i].domain) < WORD { assert Usable(mdd, i, maxBuffer); }
    }
  }

  /** A tile of one cell sent as three bytes, in blocks of two: it is outside the condition on its buffer. */
  lemma ExpandedTile()
    ensures var m := [Interval(0, 0)];
            WellMade(Mdd(m, 1, [Tile(m, [7, 7, 7])])) && !TileBufferSuffices(Tile(m, [7, 7, 7]), 1, 2)
  {
    assert CellCount([Interval(0, 0)]) == 1;
  }

  /** Receiving it leaves the temporary tile with another buffer than the one that holds its bytes. */
  method ExpandedTileInBlocks() returns (tile: array<byte>, memCopy: array<byte>)
    ensures tile != memCopy && memCopy.Length >= 3 && memCopy[..3] == [7, 7, 7]
  {
    var m := [Interval(0, 0)];
    var t := Tile(m, [7, 7, 7]);
    ExpandedTile();
    var server := new ServerComm(2, [Mdd(m, 1, [t])]);
    var mddStatus, domain := server.GetNextMDD();
    var status, typeLength;
    status, domain, typeLength, tile, memCopy := ReceiveTile(server, true, 0, 0, 0);
  }
}

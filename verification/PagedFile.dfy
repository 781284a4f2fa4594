/**
 The memory file system of the converters: a byte file kept in 4 KiB blocks behind a table whose size
 is a power of two.

 The ghost field `written` is the specification: which bytes of the current file have been written and
 with what. `Valid` ties it to the block table, and every method keeps it.
 */
module PagedFile {
  import opened Prelude
  import opened Boxes

  const BLOCK := 4096
  const MAM_ENTRIES := 16
  const MAX_LONG := 0x7FFF_FFFF   // positions are 32-bit signed

  datatype Whence = SeekSet | SeekCur | SeekEnd | Other

  /** A flat byte file: the bytes written so far, the read/write position and the end of the file. */
  datatype FlatFile = FlatFile(written: map<int, byte>, pos: int, high: int) {
    predicate Ok() {
      0 <= pos <= high && forall k :: k in written ==> 0 <= k < high
    }
  }


  function Overwrite(m: map<int, byte>, pos: int, data: seq<byte>): map<int, byte>
    decreases data
  {
    if data == [] then m else Overwrite(m[pos := data[0]], pos + 1, data[1..])
  }

  lemma {:induction false} OverwriteAt(m: map<int, byte>, pos: int, data: seq<byte>, k: int)
    decreases data
    ensures k in Overwrite(m, pos, data) <==> k in m || pos <= k < pos + |data|
    ensures pos <= k < pos + |data| ==> Overwrite(m, pos, data)[k] == data[k - pos]
    ensures k in m && !(pos <= k < pos + |data|) ==> Overwrite(m, pos, data)[k] == m[k]
  {
    if data != [] { OverwriteAt(m[pos := data[0]], pos + 1, data[1..], k); }
  }

  lemma OverwriteNothing(m: map<int, byte>, pos: int)
    ensures Overwrite(m, pos, []) == m
  {
  }

  /** The specification keeps its own invariant. */
  lemma StepOk(f: FlatFile, op: Op)
    requires f.Ok()
    ensures Step(f, op).Ok()
  {
    if op.OpWrite? {
      forall k | k in Overwrite(f.written, f.pos, op.data) ensures 0 <= k < Max(f.high, f.pos + |op.data|) {
        OverwriteAt(f.written, f.pos, op.data, k);
      }
    }
  }

  function NewFile(f: FlatFile): FlatFile { FlatFile(map[], 0, 0) }

  function Write(f: FlatFile, data: seq<byte>): FlatFile {
    FlatFile(Overwrite(f.written, f.pos, data), f.pos + |data|, Max(f.high, f.pos + |data|))
  }

  function SeekTarget(f: FlatFile, offset: int, mode: Whence): int {
    var p := match mode
             case SeekSet => offset
             case SeekCur => f.pos + offset
             case SeekEnd => f.high + offset
             case Other => f.pos;
    Max(p, 0)
  }

  function Seek(f: FlatFile, offset: int, mode: Whence): FlatFile {
    var p := SeekTarget(f, offset, mode);
    FlatFile(f.written, p, Max(f.high, p))
  }

  function ReadLength(f: FlatFile, size: int): int { Max(Min(size, f.high - f.pos), 0) }

  function AfterRead(f: FlatFile, size: int): FlatFile {
    f.(pos := f.pos + ReadLength(f, size))
  }

  /** What a read may deliver: the written bytes as written; bytes in a gap are unspecified. */
  ghost predicate MayRead(f: FlatFile, size: int, r: seq<byte>) {
    |r| == ReadLength(f, size) && forall k :: 0 <= k < |r| && f.pos + k in f.written ==> r[k] == f.written[f.pos + k]
  }

  // ---------- runs ----------

  datatype Op = OpNew | OpWrite(data: seq<byte>) | OpSeek(offset: int, mode: Whence) | OpRead(size: int)

  function Step(f: FlatFile, op: Op): FlatFile {
    match op
    case OpNew => NewFile(f)
    case OpWrite(data) => Write(f, data)
    case OpSeek(offset, mode) => Seek(f, offset, mode)
    case OpRead(size) => AfterRead(f, size)
  }

  function Run(ops: seq<Op>): FlatFile {
    if ops == [] then FlatFile(map[], 0, 0) else Step(Run(ops[..|ops| - 1]), ops[|ops| - 1])
  }

  /** Looking back through a run: the byte of the last write that covers k since the file was last reset. */
  function LastWritten(ops: seq<Op>, k: int): Option<byte> {
    if ops == [] then None else
      var init, last := ops[..|ops| - 1], ops[|ops| - 1];
      var pos := Run(init).pos;
      if last.OpNew? then None
      else if last.OpWrite? && pos <= k < pos + |last.data| then Some(last.data[k - pos])
      else LastWritten(init, k)
  }

  /** After any run, 0 <= pos <= high, and exactly the bytes with a last write are specified, by that write. */
  lemma {:induction false} RunSpec(ops: seq<Op>, k: int)
    ensures Run(ops).Ok()
    ensures k in Run(ops).written <==> LastWritten(ops, k).Some?
    ensures k in Run(ops).written ==> LastWritten(ops, k) == Some(Run(ops).written[k])
  {
    if ops != [] {
      var init := ops[..|ops| - 1];
      RunSpec(init, k);
      var f := Run(init);
      StepOk(f, ops[|ops| - 1]);
      if ops[|ops| - 1].OpWrite? { OverwriteAt(f.written, f.pos, ops[|ops| - 1].data, k); }
    }
  }

  /** A read after any run delivers the bytes last written, and stops at the end of the file. */
  lemma ReadAfterRun(ops: seq<Op>, size: int, r: seq<byte>, i: nat)
    requires MayRead(Run(ops), size, r) && i < |r|
    ensures var f := Run(ops);
            && f.pos + |r| <= f.high
            && (LastWritten(ops, f.pos + i).Some? ==> r[i] == LastWritten(ops, f.pos + i).value)
  {
    RunSpec(ops, Run(ops).pos + i);
  }

  // ---------- positions over a run ----------

  /** From f to g, `data` is put at `at`, and no other byte of the file changes. */
  ghost predicate Puts(f: FlatFile, g: FlatFile, at: int, data: seq<byte>) {
    && (forall k :: at <= k < at + |data| ==> k in g.written && g.written[k] == data[k - at])
    && (forall k :: !(at <= k < at + |data|) ==>
          (k in g.written <==> k in f.written) && (k in g.written ==> g.written[k] == f.written[k]))
    && g.high == Max(f.high, at + |data|) && g.pos == at + |data|
  }

  lemma RunMore(ops: seq<Op>, op: Op)
    ensures Run(ops + [op]) == Step(Run(ops), op)
  {
    assert (ops + [op])[..|ops|] == ops;
  }

  lemma WritePuts(f: FlatFile, data: seq<byte>)
    ensures Puts(f, Write(f, data), f.pos, data)
  {
    var g := Write(f, data);
    forall k ensures
      && (f.pos <= k < f.pos + |data| ==> k in g.written && g.written[k] == data[k - f.pos])
      && (!(f.pos <= k < f.pos + |data|) ==> (k in g.written <==> k in f.written) && (k in g.written ==> g.written[k] == f.written[k]))
    {
      OverwriteAt(f.written, f.pos, data, k);
    }
  }

  lemma MovedThenWrite(f: FlatFile, at: nat, data: seq<byte>)
    ensures Puts(f, Write(FlatFile(f.written, at, Max(f.high, at)), data), at, data)
  {
    var moved := FlatFile(f.written, at, Max(f.high, at));
    WritePuts(moved, data);
    assert moved.written == f.written && Write(moved, data).high == Max(f.high, at + |data|);
  }

  /** Writing behind the end, from wherever the run has left the position: the file grows by the data. */
  lemma Append(ops: seq<Op>, data: seq<byte>)
    ensures var f, g := Run(ops), Run(ops + [OpSeek(0, SeekEnd)] + [OpWrite(data)]);
            Puts(f, g, f.high, data) && g.high == f.high + |data|
  {
    hide Run, Overwrite;
    RunSpec(ops, 0);
    RunMore(ops, OpSeek(0, SeekEnd));
    RunMore(ops + [OpSeek(0, SeekEnd)], OpWrite(data));
    MovedThenWrite(Run(ops), Run(ops).high, data);
  }

  /** Writing at a position counted from the start. */
  lemma WriteAt(ops: seq<Op>, p: nat, data: seq<byte>)
    ensures Puts(Run(ops), Run(ops + [OpSeek(p, SeekSet)] + [OpWrite(data)]), p, data)
  {
    hide Run, Overwrite;
    RunMore(ops, OpSeek(p, SeekSet));
    RunMore(ops + [OpSeek(p, SeekSet)], OpWrite(data));
    MovedThenWrite(Run(ops), p, data);
  }

  /** Skipping n bytes, back or forth, between two writes. */
  lemma WriteSkipWrite(ops: seq<Op>, a: seq<byte>, n: int, b: seq<byte>)
    requires Run(ops).pos + |a| + n >= 0
    ensures var f, g := Run(ops + [OpWrite(a)]), Run(ops + [OpWrite(a)] + [OpSeek(n, SeekCur)] + [OpWrite(b)]);
            Puts(f, g, Run(ops).pos + |a| + n, b)
  {
    hide Run, Overwrite;
    var wrote := ops + [OpWrite(a)];
    RunMore(ops, OpWrite(a));
    RunMore(wrote, OpSeek(n, SeekCur));
    RunMore(wrote + [OpSeek(n, SeekCur)], OpWrite(b));
    MovedThenWrite(Run(wrote), Run(ops).pos + |a| + n, b);
  }

  /** Going back over what was just written and reading as much gives it back. */
  lemma WriteThenReadBack(ops: seq<Op>, data: seq<byte>, r: seq<byte>)
    requires MayRead(Run(ops + [OpWrite(data)] + [OpSeek(-|data|, SeekCur)]), |data|, r)
    ensures r == data
  {
    var wrote := ops + [OpWrite(data)];
    hide Run, Overwrite;
    RunSpec(ops, 0);
    RunMore(ops, OpWrite(data));
    RunMore(wrote, OpSeek(-|data|, SeekCur));
    WritePuts(Run(ops), data);
  }

  /** A whole file is read back from its start. */
  lemma WriteThenReadAll(ops: seq<Op>, data: seq<byte>, size: int, r: seq<byte>)
    requires size >= |data| && MayRead(Run(ops + [OpNew] + [OpWrite(data)] + [OpSeek(0, SeekSet)]), size, r)
    ensures r == data
  {
    var new' := ops + [OpNew];
    hide Run, Overwrite;
    RunMore(ops, OpNew);
    RunMore(new', OpWrite(data));
    RunMore(new' + [OpWrite(data)], OpSeek(0, SeekSet));
    WritePuts(Run(new'), data);
  }

  /** Two reads one after the other deliver what one read of both sizes may deliver. */
  lemma ReadTwice(ops: seq<Op>, m: nat, n: nat, r: seq<byte>, s: seq<byte>)
    requires MayRead(Run(ops), m, r) && MayRead(Run(ops + [OpRead(m)]), n, s)
    ensures MayRead(Run(ops), m + n, r + s)
    ensures Run(ops + [OpRead(m)] + [OpRead(n)]) == Run(ops + [OpRead(m + n)])
  {
    hide Run, Overwrite;
    RunSpec(ops, 0);
    RunMore(ops, OpRead(m));
    RunMore(ops, OpRead(m + n));
    RunMore(ops + [OpRead(m)], OpRead(n));
  }

  /** A target in front of the start is the start, and an unknown mode moves nothing. */
  lemma SeekClamped(ops: seq<Op>, offset: int, mode: Whence)
    ensures var f, g := Run(ops), Run(ops + [OpSeek(offset, mode)]);
            && g.written == f.written && g.pos >= 0
            && (mode.Other? ==> g == f)
            && (g.pos == 0 <==> match mode
                                case SeekSet => offset <= 0
                                case SeekCur => f.pos <= -offset
                                case SeekEnd => f.high <= -offset
                                case Other => f.pos == 0)
  {
    hide Run, Overwrite;
    RunSpec(ops, 0);
    RunMore(ops, OpSeek(offset, mode));
  }

  /** The farthest position since the file was last reset. */
  function Farthest(ops: seq<Op>): int {
    if ops == [] || ops[|ops| - 1].OpNew? then 0 else Max(Farthest(ops[..|ops| - 1]), Run(ops).pos)
  }

  lemma {:induction false} EndIsFarthest(ops: seq<Op>)
    ensures Run(ops).high == Farthest(ops)
  {
    if ops != [] {
      EndIsFarthest(ops[..|ops| - 1]);
      RunSpec(ops[..|ops| - 1], 0);
    }
  }

  // ---------- table sizes ----------

  ghost predicate IsPowerOfTwo(n: int) {
    n >= 1 && (n == 1 || (n % 2 == 0 && IsPowerOfTwo(n / 2)))
  }

  function Pow2(i: nat): (r: nat)
    ensures r >= 1
  {
    if i == 0 then 1 else 2 * Pow2(i - 1)
  }

  lemma {:induction false} Pow2IsPower(i: nat)
    ensures IsPowerOfTwo(Pow2(i))
  {
    if i > 0 { Pow2IsPower(i - 1); }
  }

  /** A power of two below another one is at most half of it. */
  lemma {:induction false} TwiceAsLarge(n: int, size: int)
    requires IsPowerOfTwo(n) && IsPowerOfTwo(size) && n < size
    ensures 2 * n <= size
  {
    if n > 1 { TwiceAsLarge(n / 2, size / 2); }
  }

  /** The size of a grown block table: shift the index out bit by bit and count. */
  method GrownSize(index: nat) returns (size: nat)
    ensures index < size && IsPowerOfTwo(size)
    ensures index >= 1 ==> size <= 2 * index
  {
    var left, i: nat := index, 0;
    while left != 0
      invariant left * Pow2(i) <= index < (left + 1) * Pow2(i)
      invariant left == 0 && index >= 1 ==> Pow2(i) <= 2 * index
      decreases left
    {
      assert left / 2 * (2 * Pow2(i)) <= left * Pow2(i) && (left + 1) * Pow2(i) <= (left / 2 + 1) * (2 * Pow2(i)) by {
        HalfBounds(left, Pow2(i));
      }
      left := left / 2;
      i := i + 1;
    }
    size := Pow2(i);
    Pow2IsPower(i);
  }

  lemma HalfBounds(left: nat, p: nat)
    ensures left / 2 * (2 * p) <= left * p
    ensures (left + 1) * p <= (left / 2 + 1) * (2 * p)
    ensures left >= 1 ==> p <= left * p
  {
    var h := left / 2;
    assert h * (2 * p) == (2 * h) * p;
    assert (h + 1) * (2 * p) == (2 * h + 2) * p;
    MulMono(2 * h, left, p);
    MulMono(left + 1, 2 * h + 2, p);
    if left >= 1 { MulMono(1, left, p); }
  }

  lemma {:induction false} OverwriteTwice(m: map<int, byte>, pos: int, a: seq<byte>, b: seq<byte>)
    decreases a
    ensures Overwrite(Overwrite(m, pos, a), pos + |a|, b) == Overwrite(m, pos, a + b)
  {
    if a == [] {
      assert a + b == b;
    } else {
      OverwriteTwice(m[pos := a[0]], pos + 1, a[1..], b);
      assert (a + b)[1..] == a[1..] + b;
    }
  }

  // ---------- the file system ----------

  class MemFS {
    var pos: int
    var high: int
    var mamSize: int
    var mamHighest: int
    var mam: array<array?<byte>>

    ghost var written: map<int, byte>
    ghost var copies: nat            // block pointers copied so far while growing the table
    ghost var Repr: set<object>

    ghost function File(): FlatFile
      reads this
    {
      FlatFile(written, pos, high)
    }

    /** Allocated blocks form a prefix of the table that ends at `mamHighest`; no block is shared. */
    ghost predicate Blocks()
      reads this`mam, this`mamSize, this`mamHighest, this`Repr, Repr
    {
      && this !in Repr && mam in Repr && mam.Length == mamSize
      && 0 <= mamHighest < mamSize
      && (forall i :: 0 <= i <= mamHighest ==> mam[i] != null && mam[i] in Repr && mam[i].Length == BLOCK)
      && (forall i, j :: 0 <= i < j <= mamHighest ==> mam[i] != mam[j])
      && (forall i :: mamHighest < i < mamSize ==> mam[i] == null)
    }

    function Capacity(): int
      reads this`mamHighest
    {
      (mamHighest + 1) * BLOCK
    }

    ghost function At(k: int): byte
      requires Blocks() && 0 <= k < Capacity()
      reads this`mam, this`mamSize, this`mamHighest, this`Repr, Repr
    {
      mam[k / BLOCK][k % BLOCK]
    }

    /** The blocks hold every written byte. */
    ghost predicate Holds()
      reads this`mam, this`mamSize, this`mamHighest, this`Repr, this`written, Repr
    {
      Blocks() && forall k :: k in written ==> 0 <= k < Capacity() && At(k) == written[k]
    }

    ghost predicate Valid()
      reads this, Repr
    {
      Table() && File().Ok() && high < Capacity()
    }

    ghost predicate Table()
      reads this, Repr
    {
      Holds() && IsPowerOfTwo(mamSize) && copies < mamSize
    }

    /** `memfs_initfs` */
    constructor ()
      ensures Valid() && fresh(Repr) && File() == NewFile(FlatFile(map[], 0, 0))
      ensures mamSize == 16 && mamHighest == 0 && mam[0].Length == 4096
    {
      pos, high, mamSize, mamHighest := 0, 0, MAM_ENTRIES, 0;
      var block := new byte[BLOCK];
      var table := new array?<byte>[MAM_ENTRIES](_ => null);
      mam := table;
      written, copies := map[], 0;
      new;
      mam[0] := block;
      Repr := {mam, block};
      assert IsPowerOfTwo(MAM_ENTRIES) by { Pow2IsPower(4); assert Pow2(4) == 2 * (2 * (2 * (2 * Pow2(0)))); }
    }

    /** First half of `memfs_ensure`: a table large enough for block `index`, at least doubled when it grows. */
    method GrowTable(index: nat)
      requires Table()
      modifies this`mam, this`mamSize, this`Repr, this`copies
      ensures Table() && fresh(Repr - old(Repr)) && index < mamSize
      ensures File() == old(File()) && mamHighest == old(mamHighest)
      ensures forall i :: 0 <= i <= mamHighest ==> mam[i] == old(mam[i])
      ensures mamSize != old(mamSize) ==> mamSize >= 2 * old(mamSize) && copies == old(copies) + old(mamSize) && fresh(mam)
      ensures mamSize == old(mamSize) ==> copies == old(copies) && mam == old(mam) && Repr == old(Repr)
    {
      hide IsPowerOfTwo;
      if index >= mamSize {
        var size := GrownSize(index);
        TwiceAsLarge(mamSize, size);
        var mam2 := new array?<byte>[size](_ => null);
        forall i | 0 <= i < mamSize { mam2[i] := mam[i]; }
        copies := copies + mamSize;
        mam, mamSize, Repr := mam2, size, Repr + {mam2};
        assert Blocks();
        forall k | k in written ensures 0 <= k < Capacity() && At(k) == written[k] {
          assert mam[k / BLOCK] == old(mam[k / BLOCK]);
        }
      }
    }

    /** `memfs_ensure`: afterwards every block up to the one that holds `off` is allocated. */
    method Ensure(off: int)
      requires Table() && 0 <= off
      modifies this`mam, this`mamSize, this`mamHighest, this`Repr, this`copies, mam
      ensures Table() && fresh(Repr - old(Repr))
      ensures File() == old(File()) && off < Capacity() && mamHighest >= old(mamHighest)
      ensures forall i :: 0 <= i <= old(mamHighest) ==> mam[i] == old(mam[i])
    {
      hide IsPowerOfTwo;
      var index := off / BLOCK;
      GrowTable(index);
      if mam[index] == null {
        ghost var highest := mamHighest;
        ghost var table := mam;
        label before:
        for i := mamHighest + 1 to index + 1
          invariant mam == table && mamHighest == highest && mam.Length == mamSize
          invariant forall j :: 0 <= j <= highest ==> mam[j] == old@before(mam[j])
          invariant forall j :: highest < j < i ==> mam[j] != null && mam[j] in Repr && fresh(mam[j]) && mam[j].Length == BLOCK
          invariant forall j, k :: 0 <= j < k < i ==> mam[j] != mam[k]
          invariant forall j :: i <= j < mamSize ==> mam[j] == null
          invariant this !in Repr && mam in Repr && old@before(Repr) <= Repr && fresh(Repr - old(Repr))
          invariant File() == old(File()) && copies < mamSize
        {
          var block := new byte[BLOCK];
          mam[i] := block;
          Repr := Repr + {block};
        }
        mamHighest := index;
        assert Blocks();
        forall k | k in written ensures 0 <= k < Capacity() && At(k) == written[k] {
          assert mam[k / BLOCK] == old@before(mam[k / BLOCK]);
        }
      }
    }

    /** `memfs_newfile`: the blocks stay, their contents are forgotten. */
    method Reset()
      requires Valid()
      modifies this`pos, this`high, this`written
      ensures Valid() && File() == NewFile(old(File()))
    {
      pos, high, written := 0, 0, map[];
    }

    /** One memcpy of `memfs_write`, inside one block. */
    method PutChunk(chunk: seq<byte>)
      requires Holds() && 0 <= pos && pos + |chunk| <= Capacity() && pos % BLOCK + |chunk| <= BLOCK && |chunk| > 0
      modifies this`pos, this`written, mam[pos / BLOCK]
      ensures Holds() && pos == old(pos) + |chunk| && written == Overwrite(old(written), old(pos), chunk)
    {
      hide Overwrite;
      var block, offset := mam[pos / BLOCK], pos % BLOCK;
      forall i | offset <= i < offset + |chunk| { block[i] := chunk[i - offset]; }
      written := Overwrite(written, pos, chunk);
      ghost var start := pos;
      pos := pos + |chunk|;
      forall k | k in written ensures 0 <= k < Capacity() && At(k) == written[k] {
        OverwriteAt(old(written), start, chunk, k);
        if start <= k < start + |chunk| {
          assert k / BLOCK == start / BLOCK && k % BLOCK == offset + (k - start);
        } else if k / BLOCK != start / BLOCK {
          assert mam[k / BLOCK] != block;
        }
      }
    }

    /** The copy loop of `memfs_write`, once the blocks are there. */
    method PutAll(data: seq<byte>) returns (transfered: int)
      requires Holds() && 0 <= pos && pos + |data| <= Capacity()
      modifies this`pos, this`written, set i | 0 <= i <= mamHighest && mam[i] != null :: mam[i]
      ensures Holds() && transfered == |data|
      ensures pos == old(pos) + |data| && written == Overwrite(old(written), old(pos), data)
    {
      hide Overwrite, At;
      transfered := 0;
      var size := |data|;
      ghost var start, before := pos, written;
      OverwriteNothing(before, start);
      while size > 0
        invariant transfered + size == |data| && size >= 0
        invariant pos == start + transfered && Holds()
        invariant written == Overwrite(before, start, data[..transfered])
      {
        var x := BLOCK - pos % BLOCK;
        if x > size { x := size; }
        OverwriteTwice(before, start, data[..transfered], data[transfered..transfered + x]);
        assert data[..transfered] + data[transfered..transfered + x] == data[..transfered + x];
        PutChunk(data[transfered..transfered + x]);
        transfered := transfered + x;
        size := size - x;
      }
      assert data[..transfered] == data;
    }

    /** `memfs_write` */
    method WriteFile(data: seq<byte>) returns (transfered: int)
      requires Valid() && pos + |data| <= MAX_LONG
      modifies this, Repr
      ensures Valid() && fresh(Repr - old(Repr))
      ensures transfered == |data| && File() == Write(old(File()), data)
    {
      hide IsPowerOfTwo, Overwrite;
      Ensure(pos + |data|);
      StepOk(File(), OpWrite(data));
      transfered := PutAll(data);
      if pos > high { high := pos; }
    }

    /** `memfs_read`: copies into the caller's buffer, never past the end of the file. */
    method ReadFile(mem: array<byte>, size: int) returns (transfered: int)
      requires Valid() && mem !in Repr && size <= mem.Length
      modifies this`pos, mem
      ensures Valid() && File() == AfterRead(old(File()), size)
      ensures transfered == ReadLength(old(File()), size)
      ensures MayRead(old(File()), size, mem[..transfered])
      ensures forall i :: transfered <= i < mem.Length ==> mem[i] == old(mem[i])
    {
      hide IsPowerOfTwo, At;
      ghost var before := File();
      var todo := high - pos;
      if todo > size { todo := size; }
      transfered := 0;
      if todo <= 0 { return; }
      while todo > 0
        invariant 0 <= transfered <= ReadLength(before, size) == transfered + todo
        invariant pos == before.pos + transfered && Holds() && written == before.written && high == before.high
        invariant forall i :: 0 <= i < transfered ==> mem[i] == At(before.pos + i)
        invariant forall i :: transfered <= i < mem.Length ==> mem[i] == old(mem[i])
      {
        var x := BLOCK - pos % BLOCK;
        if x > todo { x := todo; }
        TakeChunk(mem, transfered, x);
        transfered := transfered + x;
        todo := todo - x;
      }
    }

    /** One memcpy of `memfs_read`, out of one block. */
    method TakeChunk(mem: array<byte>, at: nat, x: nat)
      requires Holds() && mem !in Repr && at + x <= mem.Length
      requires 0 <= pos && pos + x <= Capacity() && pos % BLOCK + x <= BLOCK && x > 0
      modifies this`pos, mem
      ensures Holds() && pos == old(pos) + x
      ensures forall i :: at <= i < at + x ==> mem[i] == At(old(pos) + (i - at))
      ensures forall i :: 0 <= i < mem.Length && !(at <= i < at + x) ==> mem[i] == old(mem[i])
    {
      var block, offset := mam[pos / BLOCK], pos % BLOCK;
      assert mem != block;
      forall i | at <= i < at + x { mem[i] := block[offset + (i - at)]; }
      pos := pos + x;
      assert Holds();
      forall i | at <= i < at + x ensures mem[i] == At(old(pos) + (i - at)) {
        assert (old(pos) + (i - at)) / BLOCK == old(pos) / BLOCK && (old(pos) + (i - at)) % BLOCK == offset + (i - at);
      }
    }

    /** `memfs_seek`: may move past the end, which extends the file by a gap. */
    method SeekFile(offset: int, mode: Whence) returns (r: int)
      requires Valid() && SeekTarget(File(), offset, mode) <= MAX_LONG
      modifies this, Repr
      ensures Valid() && fresh(Repr - old(Repr))
      ensures File() == Seek(old(File()), offset, mode) && r == pos
    {
      hide IsPowerOfTwo, At;
      match mode {
        case SeekSet => pos := offset;
        case SeekCur => pos := pos + offset;
        case SeekEnd => pos := high + offset;
        case Other =>
      }
      if pos < 0 { pos := 0; }
      Ensure(pos);
      if pos > high { high := pos; }
      r := pos;
    }

    /** `memfs_killfs`: the blocks handed to `free`, in order. */
    method KillFs() returns (freed: seq<array<byte>>)
      requires Valid()
      ensures |freed| == mamHighest + 1
      ensures forall i :: 0 <= i < |freed| ==> freed[i] == mam[i]
      ensures forall i, j :: 0 <= i < j < |freed| ==> freed[i] != freed[j]
      ensures forall i :: 0 <= i < mamSize && mam[i] != null ==> mam[i] in freed
    {
      freed := [];
      var i := 0;
      while i < mamSize
        invariant 0 <= i <= mamSize && i <= mamHighest + 1 && |freed| == i
        invariant forall j :: 0 <= j < i ==> freed[j] == mam[j]
      {
        if mam[i] == null { break; }
        freed := freed + [mam[i]];
        i := i + 1;
      }
    }
  }
}

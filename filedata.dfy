/**
 * The byte-level work of FileSystem.read and FileSystem.write, as functions of
 * the device, the inode's block pointers and the seek pointer.
 *
 * A file's bytes live in "logical blocks": byte p is byte p % 512 of logical
 * block p / 512; logical blocks 0..10 are the inode's direct pointers and
 * logical block n >= 11 is the short stored at byte (n - 11) * 2 of the
 * inode's indirect block. `Resolve` and `FileBytes` state that translation on
 * their own; `ReadBody` and `WriteBody` follow read and write statement by
 * statement (Java int arithmetic, exceptions and all), and the lemmas relate
 * the two.
 */
module FileData {
  import opened JavaInts
  import opened Options
  import opened Codec
  import opened Device
  import opened Inodes
  import opened SuperBlocks

  /** The short block pointers held by the indirect block. */
  const INDIRECT_SLOTS: int := BLOCK_SIZE / 2

  /** A block number cread and cwrite accept. */
  predicate OnDisk(blocks: seq<seq<byte>>, b: int)
  {
    0 <= b < |blocks|
  }

  /** bytes2short(data, off) reads data[off] and data[off + 1] of a block buffer. */
  predicate ShortFits(off: int)
  {
    0 <= off && off + 2 <= BLOCK_SIZE
  }

  // ---------------------------------------------------------------------------
  // Address translation

  /**
   * The device block holding logical block `n` of a file: its direct pointer
   * for n < 11, else the pointer in slot n - 11 of the indirect block; None
   * when a pointer leads off the device or `n` is outside the 267 blocks.
   */
  function Resolve(blocks: seq<seq<byte>>, direct: seq<short>, indirect: int, n: int): (r: Option<int>)
    requires AllBlocks(blocks) && |direct| == DIRECT_SIZE
    ensures r.Some? ==> OnDisk(blocks, r.value)
    ensures r.Some? && n < DIRECT_SIZE ==> 0 <= n && r.value == direct[n]
    ensures r.Some? && DIRECT_SIZE <= n ==> n < DIRECT_SIZE + INDIRECT_SLOTS && OnDisk(blocks, indirect)
  {
    if 0 <= n < DIRECT_SIZE then
      if OnDisk(blocks, direct[n]) then Some(direct[n] as int) else None
    else if DIRECT_SIZE <= n < DIRECT_SIZE + INDIRECT_SLOTS && OnDisk(blocks, indirect) then
      var ptr := GetShort(blocks[indirect], (n - DIRECT_SIZE) * 2);
      if OnDisk(blocks, ptr) then Some(ptr as int) else None
    else None
  }

  /** Byte `q` of the file, or 0 where its block does not resolve. */
  function ByteAt(blocks: seq<seq<byte>>, direct: seq<short>, indirect: int, q: int): byte
    requires AllBlocks(blocks) && |direct| == DIRECT_SIZE && q >= 0
  {
    match Resolve(blocks, direct, indirect, q / BLOCK_SIZE)
    case Some(b) => blocks[b][q % BLOCK_SIZE]
    case None => 0
  }

  /** The `k` bytes of the file from byte `p` on. */
  function FileBytes(blocks: seq<seq<byte>>, direct: seq<short>, indirect: int, p: int, k: nat): (s: seq<byte>)
    requires AllBlocks(blocks) && |direct| == DIRECT_SIZE && p >= 0
    ensures |s| == k
    ensures forall j | 0 <= j < k :: s[j] == ByteAt(blocks, direct, indirect, p + j)
  {
    seq<byte>(k, j requires 0 <= j < k => ByteAt(blocks, direct, indirect, p + j))
  }

  lemma FileBytesSplit(blocks: seq<seq<byte>>, direct: seq<short>, indirect: int, p: int, a: nat, b: nat)
    requires AllBlocks(blocks) && |direct| == DIRECT_SIZE && p >= 0
    ensures FileBytes(blocks, direct, indirect, p, a + b)
         == FileBytes(blocks, direct, indirect, p, a) + FileBytes(blocks, direct, indirect, p + a, b)
  {
  }

  /** Bytes within one block are a slice of the device block it resolves to. */
  lemma FileBytesInBlock(blocks: seq<seq<byte>>, direct: seq<short>, indirect: int, p: int, n: int, off: int, k: nat, b: int)
    requires AllBlocks(blocks) && |direct| == DIRECT_SIZE && 0 <= n
    requires p == BLOCK_SIZE * n + off && 0 <= off && off + k <= BLOCK_SIZE
    requires Resolve(blocks, direct, indirect, n) == Some(b)
    ensures FileBytes(blocks, direct, indirect, p, k) == blocks[b][off..off + k]
  {
    var s := FileBytes(blocks, direct, indirect, p, k);
    forall j | 0 <= j < k
      ensures s[j] == blocks[b][off + j]
    {
      assert (p + j) / BLOCK_SIZE == n && (p + j) % BLOCK_SIZE == off + j;
    }
  }

  // ---------------------------------------------------------------------------
  // What read and write compute before any I/O

  /** System.arraycopy's bounds: `len` bytes from src[srcPos..] to dest[destPos..]. */
  predicate CopyFits(srcLen: int, srcPos: int, destLen: int, destPos: int, len: int)
  {
    0 <= srcPos && 0 <= destPos && 0 <= len && srcPos + len <= srcLen && destPos + len <= destLen
  }

  /** System.arraycopy on distinct arrays: `dest` with src[srcPos..srcPos + len] at `destPos`. */
  function Copy(dest: seq<byte>, destPos: int, src: seq<byte>, srcPos: int, len: int): (r: seq<byte>)
    requires CopyFits(|src|, srcPos, |dest|, destPos, len)
    ensures |r| == |dest|
    ensures r[destPos..destPos + len] == src[srcPos..srcPos + len]
    ensures r[..destPos] == dest[..destPos] && r[destPos + len..] == dest[destPos + len..]
  {
    dest[..destPos] + src[srcPos..srcPos + len] + dest[destPos + len..]
  }

  /**
   * blockNum, blockOffset, the transfer size, blockCount and lastBlock, as
   * read and write compute them from the seek pointer `p`.
   */
  datatype Plan = Plan(first: int, offset: int, size: int32, count: int, last: int)

  function PlanFor(p: int32, size: int32): Plan
  {
    var offset := JRem(p, BLOCK_SIZE);
    Plan(JDiv(p, BLOCK_SIZE), offset, size,
         JDiv(Int32(offset + size), BLOCK_SIZE) + 1, JDiv(Int32(p + size), BLOCK_SIZE))
  }

  /** read's readSize: the buffer, cut at the end of the file. */
  function ReadPlan(p: int32, bufLen: int, length: int32): Plan
    requires 0 <= bufLen < TWO_31
  {
    PlanFor(p, if Int32(p + bufLen) > length then Int32(length - p) else bufLen)
  }

  /** Without int overflow, read's readSize is the smaller of the buffer and what is left of the file. */
  lemma ReadPlanSize(p: int32, bufLen: int, length: int32)
    requires 0 <= p < length && 0 <= bufLen && p + bufLen < TWO_31
    ensures ReadPlan(p, bufLen, length).size == if bufLen < length - p then bufLen else length - p
  {
  }

  /** write's writeSize: the buffer, cut at MAX_FILE_SIZE. */
  function WritePlan(p: int32, bufLen: int): Plan
    requires 0 <= bufLen < TWO_31
  {
    PlanFor(p, if Int32(p + bufLen) > MAX_FILE_SIZE then Int32(MAX_FILE_SIZE - p) else bufLen)
  }

  /** The bytes read's and write's loops copy for their next block: min(512, size - bo), in int arithmetic. */
  function Chunk(size: int32, bo: int32): (c: int32)
    ensures c <= BLOCK_SIZE
    ensures -TWO_31 <= size - bo < TWO_31 ==> c == if size - bo > BLOCK_SIZE then BLOCK_SIZE else size - bo
  {
    if Int32(size - bo) > BLOCK_SIZE then BLOCK_SIZE else Int32(size - bo)
  }

  /**
   * The plan for a transfer of `pl.size` bytes from byte p >= 0 when no int
   * arithmetic overflows: p lies `offset` bytes into logical block `first`,
   * byte p + size in block `last`, and the transfer spans count blocks.
   */
  ghost predicate Laid(pl: Plan, p: int)
  {
    0 <= pl.first && 0 <= pl.offset < BLOCK_SIZE && p == BLOCK_SIZE * pl.first + pl.offset
    && 0 <= pl.size && p + pl.size < TWO_31
    && BLOCK_SIZE * pl.last <= p + pl.size < BLOCK_SIZE * pl.last + BLOCK_SIZE
    && pl.count == pl.last - pl.first + 1
  }

  /** Without int overflow, the plan is plain arithmetic: lastBlock - blockNum + 1 blocks. */
  lemma PlanArithmetic(p: int32, size: int32)
    requires p >= 0 && size >= 0 && p + size < TWO_31
    ensures var pl := PlanFor(p, size);
      Laid(pl, p) && pl.first == p / BLOCK_SIZE && pl.last == (p + size) / BLOCK_SIZE
  {
  }

  // ---------------------------------------------------------------------------
  // read

  /** read's caller-visible effects: its return value (or an exception), the buffer and the seek pointer. */
  datatype ReadEnd = ReadEnd(answer: Outcome<int>, buffer: seq<byte>, seekPtr: int32)

  /** How the first block of a transfer went: -1, an exception, or its bytes and the indirect block as loaded. */
  datatype Opening = Failed | Thrown | Opened(data: seq<byte>, ind: Option<seq<byte>>)

  /**
   * The first block of read: through the indirect block for blockNum >= 11;
   * otherwise the indirect block is loaded first when blockNum + blockCount
   * reaches 11, then direct[blockNum] is read.
   */
  function ReadFirst(blocks: seq<seq<byte>>, direct: seq<short>, indirect: int, pl: Plan): (o: Opening)
    requires AllBlocks(blocks) && |direct| == DIRECT_SIZE
    ensures o.Opened? ==> |o.data| == BLOCK_SIZE && (o.ind.Some? ==> |o.ind.value| == BLOCK_SIZE)
  {
    if pl.first >= DIRECT_SIZE then
      if !OnDisk(blocks, indirect) then Failed
      else
        var slot := (pl.first - DIRECT_SIZE) * 2;
        if !ShortFits(slot) then Thrown
        else
          var ptr := GetShort(blocks[indirect], slot);
          if !OnDisk(blocks, ptr) then Failed
          else Opened(blocks[ptr], Some(blocks[indirect]))
    else
      var loadsIndirect := pl.first + pl.count >= DIRECT_SIZE;
      if loadsIndirect && !OnDisk(blocks, indirect) then Failed
      else if pl.first < 0 then Thrown
      else if !OnDisk(blocks, direct[pl.first]) then Failed
      else Opened(blocks[direct[pl.first]], if loadsIndirect then Some(blocks[indirect]) else None)
  }

  /** The block pointer a transfer loop uses for logical block `n`, or the exception bytes2short throws. */
  function LoopPointer(direct: seq<short>, ind: Option<seq<byte>>, n: int): Outcome<int>
    requires |direct| == DIRECT_SIZE && 0 <= n
    requires ind.Some? ==> |ind.value| == BLOCK_SIZE
  {
    if n < DIRECT_SIZE then Returned(direct[n] as int)
    else if ind.None? || !ShortFits((n - DIRECT_SIZE) * 2) then Threw
    else Returned(GetShort(ind.value, (n - DIRECT_SIZE) * 2) as int)
  }

  /**
   * read's loop over blocks n..last: each copies min(512, size - bo) bytes
   * from the start of its block to buffer[bo..] and advances the seek pointer.
   */
  function ReadLoop(blocks: seq<seq<byte>>, direct: seq<short>, ind: Option<seq<byte>>,
                    n: int, last: int, size: int32, bo: int32, buf: seq<byte>, seekPtr: int32): (e: ReadEnd)
    requires AllBlocks(blocks) && |direct| == DIRECT_SIZE && 0 <= n
    requires ind.Some? ==> |ind.value| == BLOCK_SIZE
    ensures |e.buffer| == |buf|
    decreases last - n, 1
  {
    if n > last then ReadEnd(Returned(size), buf, seekPtr)
    else ReadOn(blocks, direct, ind, LoopPointer(direct, ind, n), n, last, size, bo, buf, seekPtr)
  }

  /** The pass of read's loop over block n with pointer `lp`: its end, or the loop from block n + 1. */
  function ReadOn(blocks: seq<seq<byte>>, direct: seq<short>, ind: Option<seq<byte>>, lp: Outcome<int>,
                  n: int, last: int, size: int32, bo: int32, buf: seq<byte>, seekPtr: int32): (e: ReadEnd)
    requires AllBlocks(blocks) && |direct| == DIRECT_SIZE && 0 <= n <= last
    requires ind.Some? ==> |ind.value| == BLOCK_SIZE
    ensures |e.buffer| == |buf|
    decreases last - n, 0
  {
    var chunk := Chunk(size, bo);
    match lp
    case Threw => ReadEnd(Threw, buf, seekPtr)
    case Returned(ptr) =>
      if !OnDisk(blocks, ptr) then ReadEnd(Returned(-1), buf, seekPtr)
      else if !CopyFits(BLOCK_SIZE, 0, |buf|, bo, chunk) then ReadEnd(Threw, buf, seekPtr)
      else ReadLoop(blocks, direct, ind, n + 1, last, size, Int32(bo + chunk),
                    Copy(buf, bo, blocks[ptr], 0, chunk), Int32(seekPtr + chunk))
  }

  /** read once its plan is made: the first block, then one copy or the first block's tail and the loop. */
  function ReadFrom(blocks: seq<seq<byte>>, direct: seq<short>, indirect: int, pl: Plan, p: int32, buf: seq<byte>): (e: ReadEnd)
    requires AllBlocks(blocks) && |direct| == DIRECT_SIZE
    ensures |e.buffer| == |buf|
  {
    match ReadFirst(blocks, direct, indirect, pl)
    case Failed => ReadEnd(Returned(-1), buf, p)
    case Thrown => ReadEnd(Threw, buf, p)
    case Opened(data, ind) =>
      if pl.count == 1 then
        if !CopyFits(BLOCK_SIZE, pl.offset, |buf|, 0, pl.size) then ReadEnd(Threw, buf, p)
        else ReadEnd(Returned(pl.size), Copy(buf, 0, data, pl.offset, pl.size), Int32(p + pl.size))
      else
        var head := BLOCK_SIZE - pl.offset;
        if !CopyFits(BLOCK_SIZE, pl.offset, |buf|, 0, head) || pl.first + 1 < 0 then ReadEnd(Threw, buf, p)
        else ReadLoop(blocks, direct, ind, pl.first + 1, pl.last, pl.size, head,
                      Copy(buf, 0, data, pl.offset, head), p)
  }

  /**
   * read after its argument checks and waitRead: the file of length `length`
   * with pointers `direct`/`indirect`, seek pointer `p`, into buffer `buf`.
   */
  function ReadBody(blocks: seq<seq<byte>>, direct: seq<short>, indirect: int, length: int32, p: int32, buf: seq<byte>): (e: ReadEnd)
    requires AllBlocks(blocks) && |direct| == DIRECT_SIZE && |buf| < TWO_31
    ensures |e.buffer| == |buf|
  {
    ReadFrom(blocks, direct, indirect, ReadPlan(p, |buf|, length), p, buf)
  }

  /**
   * read's first block, without int overflow: it is opened exactly when
   * logical block blockNum resolves and, when lastBlock reaches 10, the
   * indirect block can be read; the bytes are that block's, and the indirect
   * block is at hand whenever the loop will need it.
   */
  lemma ReadFirstOpens(blocks: seq<seq<byte>>, direct: seq<short>, indirect: int, pl: Plan, p: int)
    requires AllBlocks(blocks) && |direct| == DIRECT_SIZE && Laid(pl, p)
    ensures var o := ReadFirst(blocks, direct, indirect, pl);
      var r := Resolve(blocks, direct, indirect, pl.first);
      (o.Opened? <==> r.Some? && (pl.last >= DIRECT_SIZE - 1 ==> OnDisk(blocks, indirect)))
      && (o.Opened? ==>
            o.data == blocks[r.value]
            && (o.ind.Some? ==> OnDisk(blocks, indirect) && o.ind.value == blocks[indirect])
            && (pl.last >= DIRECT_SIZE ==> o.ind.Some?))
      && (o.Thrown? ==> pl.first >= DIRECT_SIZE + INDIRECT_SLOTS)
  {
  }

  /** Logical blocks n..last all resolve, one after the other as read's loop visits them. */
  ghost predicate Resolves(blocks: seq<seq<byte>>, direct: seq<short>, indirect: int, n: int, last: int)
    requires AllBlocks(blocks) && |direct| == DIRECT_SIZE
    decreases last - n
  {
    n > last || (Resolve(blocks, direct, indirect, n).Some? && Resolves(blocks, direct, indirect, n + 1, last))
  }

  lemma {:induction false} ResolvesAll(blocks: seq<seq<byte>>, direct: seq<short>, indirect: int, n: int, last: int)
    requires AllBlocks(blocks) && |direct| == DIRECT_SIZE
    ensures Resolves(blocks, direct, indirect, n, last)
        <==> forall m | n <= m <= last :: Resolve(blocks, direct, indirect, m).Some?
    decreases last - n
  {
    if n <= last {
      ResolvesAll(blocks, direct, indirect, n + 1, last);
    }
  }

  /** Every logical block from the one holding byte `p` to the one holding byte `p + k` resolves. */
  ghost predicate Spans(blocks: seq<seq<byte>>, direct: seq<short>, indirect: int, p: int, k: int)
    requires AllBlocks(blocks) && |direct| == DIRECT_SIZE
  {
    Resolves(blocks, direct, indirect, p / BLOCK_SIZE, (p + k) / BLOCK_SIZE)
  }

  /**
   * With the indirect block at hand past the direct pointers, the loop's
   * pointer for block n is the one Resolve finds on the disk; it throws
   * only past the 267th block.
   */
  lemma LoopPointerResolves(blocks: seq<seq<byte>>, direct: seq<short>, indirect: int, ind: Option<seq<byte>>, n: int)
    requires AllBlocks(blocks) && |direct| == DIRECT_SIZE && 0 <= n
    requires ind.Some? ==> OnDisk(blocks, indirect) && ind.value == blocks[indirect]
    requires n >= DIRECT_SIZE ==> ind.Some?
    ensures var lp := LoopPointer(direct, ind, n);
      var r := Resolve(blocks, direct, indirect, n);
      (r.Some? <==> lp.Returned? && OnDisk(blocks, lp.value))
      && (r.Some? ==> lp.value == r.value)
      && (lp.Threw? ==> n >= DIRECT_SIZE + INDIRECT_SLOTS)
  {
  }

  /**
   * read's loop over blocks n..last returns `size` exactly when each of
   * them resolves (the block past the data included when p + size ends a
   * block); otherwise -1, or an exception only past the 267th block.
   */
  lemma {:induction false} ReadLoopAnswer(blocks: seq<seq<byte>>, direct: seq<short>, indirect: int,
                                           ind: Option<seq<byte>>, n: int, last: int, size: int32, bo: int32,
                                           buf: seq<byte>, seekPtr: int32)
    requires AllBlocks(blocks) && |direct| == DIRECT_SIZE && 0 <= n
    requires ind.Some? ==> OnDisk(blocks, indirect) && ind.value == blocks[indirect]
    requires last >= DIRECT_SIZE ==> ind.Some?
    requires 0 <= bo && size >= 0 && bo + BLOCK_SIZE * (last - n) <= size <= |buf|
    ensures var e := ReadLoop(blocks, direct, ind, n, last, size, bo, buf, seekPtr);
      (e.answer == Returned(size as int) <==> Resolves(blocks, direct, indirect, n, last))
      && (e.answer != Returned(size as int) ==>
            e.answer == Returned(-1) || (e.answer == Threw && last >= DIRECT_SIZE + INDIRECT_SLOTS))
    decreases last - n, 1
  {
    if n <= last {
      LoopPointerResolves(blocks, direct, indirect, ind, n);
      ReadOnAnswer(blocks, direct, indirect, ind, LoopPointer(direct, ind, n), n, last, size, bo, buf, seekPtr);
    }
  }

  lemma {:induction false} ReadOnAnswer(blocks: seq<seq<byte>>, direct: seq<short>, indirect: int,
                                         ind: Option<seq<byte>>, lp: Outcome<int>, n: int, last: int, size: int32, bo: int32,
                                         buf: seq<byte>, seekPtr: int32)
    requires AllBlocks(blocks) && |direct| == DIRECT_SIZE && 0 <= n <= last
    requires ind.Some? ==> OnDisk(blocks, indirect) && ind.value == blocks[indirect]
    requires last >= DIRECT_SIZE ==> ind.Some?
    requires 0 <= bo && size >= 0 && bo + BLOCK_SIZE * (last - n) <= size <= |buf|
    requires Resolve(blocks, direct, indirect, n).Some? <==> lp.Returned? && OnDisk(blocks, lp.value)
    requires lp.Threw? ==> n >= DIRECT_SIZE + INDIRECT_SLOTS
    ensures var e := ReadOn(blocks, direct, ind, lp, n, last, size, bo, buf, seekPtr);
      (e.answer == Returned(size as int) <==> Resolves(blocks, direct, indirect, n, last))
      && (e.answer != Returned(size as int) ==>
            e.answer == Returned(-1) || (e.answer == Threw && last >= DIRECT_SIZE + INDIRECT_SLOTS))
    decreases last - n, 0
  {
    if lp.Returned? && OnDisk(blocks, lp.value) {
      var chunk := Chunk(size, bo);
      assert CopyFits(BLOCK_SIZE, 0, |buf|, bo, chunk);
      var next := Copy(buf, bo, blocks[lp.value], 0, chunk);
      ReadLoopAnswer(blocks, direct, indirect, ind, n + 1, last, size, Int32(bo + chunk), next, Int32(seekPtr + chunk));
      assert Resolves(blocks, direct, indirect, n, last) == Resolves(blocks, direct, indirect, n + 1, last);
    } else {
      assert !Resolves(blocks, direct, indirect, n, last);
    }
  }

  /** One pass of read's loop puts block n's first `chunk` bytes after the `bo` already in the buffer. */
  lemma ReadStep(blocks: seq<seq<byte>>, direct: seq<short>, indirect: int, p: int, n: int, bo: int, chunk: int,
                 b: int, buf: seq<byte>, size: int)
    requires AllBlocks(blocks) && |direct| == DIRECT_SIZE && 0 <= p && OnDisk(blocks, b)
    requires 0 <= bo && 0 <= chunk <= BLOCK_SIZE && bo + chunk <= size <= |buf| && 0 <= n && p + bo == BLOCK_SIZE * n
    requires Resolve(blocks, direct, indirect, n) == Some(b)
    requires buf[..bo] == FileBytes(blocks, direct, indirect, p, bo)
    ensures var next := Copy(buf, bo, blocks[b], 0, chunk);
      next[..bo + chunk] == FileBytes(blocks, direct, indirect, p, bo + chunk) && next[size..] == buf[size..]
  {
    var next := Copy(buf, bo, blocks[b], 0, chunk);
    FileBytesInBlock(blocks, direct, indirect, p + bo, n, 0, chunk, b);
    FileBytesSplit(blocks, direct, indirect, p, bo, chunk);
    assert next[..bo + chunk] == buf[..bo] + blocks[b][..chunk];
    assert next[size..] == next[bo + chunk..][size - bo - chunk..];
  }

  /**
   * read's loop, without int overflow, when bytes [p, p + bo) of the file
   * are already in the buffer and block n starts at byte p + bo: when it
   * returns `size`, the buffer starts with the file's `size` bytes from p
   * and the seek pointer has moved by size - bo.
   */
  lemma {:induction false} ReadLoopBuffer(blocks: seq<seq<byte>>, direct: seq<short>, indirect: int,
                                           ind: Option<seq<byte>>, n: int, last: int, size: int32, bo: int32,
                                           buf: seq<byte>, seekPtr: int32, p: int)
    requires AllBlocks(blocks) && |direct| == DIRECT_SIZE && 0 <= n <= last && 0 <= p
    requires ind.Some? ==> OnDisk(blocks, indirect) && ind.value == blocks[indirect]
    requires p + bo == n * BLOCK_SIZE && 0 <= bo <= size <= |buf| && last == (p + size) / BLOCK_SIZE
    requires seekPtr + (size - bo) < TWO_31
    requires buf[..bo] == FileBytes(blocks, direct, indirect, p, bo)
    requires ReadLoop(blocks, direct, ind, n, last, size, bo, buf, seekPtr).answer == Returned(size as int)
    ensures var e := ReadLoop(blocks, direct, ind, n, last, size, bo, buf, seekPtr);
      e.buffer[..size] == FileBytes(blocks, direct, indirect, p, size as nat)
      && e.buffer[size..] == buf[size..] && e.seekPtr == seekPtr + size - bo
    decreases last - n, 1
  {
    LoopPointerResolves(blocks, direct, indirect, ind, n);
    ReadOnBuffer(blocks, direct, indirect, ind, LoopPointer(direct, ind, n), n, last, size, bo, buf, seekPtr, p);
  }

  lemma {:induction false} ReadOnBuffer(blocks: seq<seq<byte>>, direct: seq<short>, indirect: int,
                                         ind: Option<seq<byte>>, lp: Outcome<int>, n: int, last: int, size: int32, bo: int32,
                                         buf: seq<byte>, seekPtr: int32, p: int)
    requires AllBlocks(blocks) && |direct| == DIRECT_SIZE && 0 <= n <= last && 0 <= p
    requires ind.Some? ==> OnDisk(blocks, indirect) && ind.value == blocks[indirect]
    requires p + bo == n * BLOCK_SIZE && 0 <= bo <= size <= |buf| && last == (p + size) / BLOCK_SIZE
    requires seekPtr + (size - bo) < TWO_31
    requires buf[..bo] == FileBytes(blocks, direct, indirect, p, bo)
    requires lp.Returned? && OnDisk(blocks, lp.value) ==> Resolve(blocks, direct, indirect, n) == Some(lp.value)
    requires ReadOn(blocks, direct, ind, lp, n, last, size, bo, buf, seekPtr).answer == Returned(size as int)
    ensures var e := ReadOn(blocks, direct, ind, lp, n, last, size, bo, buf, seekPtr);
      e.buffer[..size] == FileBytes(blocks, direct, indirect, p, size as nat)
      && e.buffer[size..] == buf[size..] && e.seekPtr == seekPtr + size - bo
    decreases last - n, 0
  {
    var ptr := lp.value;
    var chunk := Chunk(size, bo);
    var next := Copy(buf, bo, blocks[ptr], 0, chunk);
    ReadStep(blocks, direct, indirect, p, n, bo, chunk, ptr, buf, size);
    if n < last {
      ReadLoopBuffer(blocks, direct, indirect, ind, n + 1, last, size, Int32(bo + chunk), next, Int32(seekPtr + chunk), p);
    }
  }

  /** ReadAnswer once the plan is made. */
  lemma ReadFromAnswer(blocks: seq<seq<byte>>, direct: seq<short>, indirect: int, pl: Plan, p: int32, buf: seq<byte>)
    requires AllBlocks(blocks) && |direct| == DIRECT_SIZE && Laid(pl, p) && pl.size <= |buf|
    ensures var e := ReadFrom(blocks, direct, indirect, pl, p, buf);
      (e.answer == Returned(pl.size as int) <==>
         Resolves(blocks, direct, indirect, pl.first, pl.last) && (pl.last >= DIRECT_SIZE - 1 ==> OnDisk(blocks, indirect)))
      && (e.answer != Returned(pl.size as int) ==>
            e.answer == Returned(-1) || (e.answer == Threw && pl.last >= DIRECT_SIZE + INDIRECT_SLOTS))
  {
    if ReadFirst(blocks, direct, indirect, pl).Opened? && pl.count != 1 {
      ReadManyAnswer(blocks, direct, indirect, pl, p, buf);
    } else {
      ReadFewAnswer(blocks, direct, indirect, pl, p, buf);
    }
  }

  /** ReadFromAnswer when the first block opens and more than one block is read. */
  lemma ReadManyAnswer(blocks: seq<seq<byte>>, direct: seq<short>, indirect: int, pl: Plan, p: int32, buf: seq<byte>)
    requires AllBlocks(blocks) && |direct| == DIRECT_SIZE && Laid(pl, p) && pl.size <= |buf|
    requires ReadFirst(blocks, direct, indirect, pl).Opened? && pl.count != 1
    ensures var e := ReadFrom(blocks, direct, indirect, pl, p, buf);
      (e.answer == Returned(pl.size as int) <==>
         Resolves(blocks, direct, indirect, pl.first, pl.last) && (pl.last >= DIRECT_SIZE - 1 ==> OnDisk(blocks, indirect)))
      && (e.answer != Returned(pl.size as int) ==>
            e.answer == Returned(-1) || (e.answer == Threw && pl.last >= DIRECT_SIZE + INDIRECT_SLOTS))
  {
    ReadFirstOpens(blocks, direct, indirect, pl, p);
    var o := ReadFirst(blocks, direct, indirect, pl);
    var next := ReadManyFirst(blocks, direct, indirect, pl, p, buf);
    ReadManyLoop(blocks, direct, indirect, o.ind, pl, next, p);
  }

  /** With several blocks to read, read copies the first block's tail and hands over to its loop. */
  lemma ReadManyFirst(blocks: seq<seq<byte>>, direct: seq<short>, indirect: int, pl: Plan, p: int32, buf: seq<byte>)
    returns (next: seq<byte>)
    requires AllBlocks(blocks) && |direct| == DIRECT_SIZE && Laid(pl, p) && pl.size <= |buf|
    requires ReadFirst(blocks, direct, indirect, pl).Opened? && pl.count != 1
    ensures var o := ReadFirst(blocks, direct, indirect, pl);
      CopyFits(BLOCK_SIZE, pl.offset, |buf|, 0, BLOCK_SIZE - pl.offset)
      && next == Copy(buf, 0, o.data, pl.offset, BLOCK_SIZE - pl.offset)
      && ReadFrom(blocks, direct, indirect, pl, p, buf)
         == ReadLoop(blocks, direct, o.ind, pl.first + 1, pl.last, pl.size, BLOCK_SIZE - pl.offset, next, p)
  {
    var o := ReadFirst(blocks, direct, indirect, pl);
    next := Copy(buf, 0, o.data, pl.offset, BLOCK_SIZE - pl.offset);
  }

  /** ReadFromAnswer when the first block does not open, or is the only one read. */
  lemma ReadFewAnswer(blocks: seq<seq<byte>>, direct: seq<short>, indirect: int, pl: Plan, p: int32, buf: seq<byte>)
    requires AllBlocks(blocks) && |direct| == DIRECT_SIZE && Laid(pl, p) && pl.size <= |buf|
    requires !ReadFirst(blocks, direct, indirect, pl).Opened? || pl.count == 1
    ensures var e := ReadFrom(blocks, direct, indirect, pl, p, buf);
      (e.answer == Returned(pl.size as int) <==>
         Resolves(blocks, direct, indirect, pl.first, pl.last) && (pl.last >= DIRECT_SIZE - 1 ==> OnDisk(blocks, indirect)))
      && (e.answer != Returned(pl.size as int) ==>
            e.answer == Returned(-1) || (e.answer == Threw && pl.last >= DIRECT_SIZE + INDIRECT_SLOTS))
  {
    ReadFirstOpens(blocks, direct, indirect, pl, p);
    assert Resolve(blocks, direct, indirect, pl.first).None? ==> !Resolves(blocks, direct, indirect, pl.first, pl.last);
    assert pl.count == 1 ==> Resolves(blocks, direct, indirect, pl.first + 1, pl.last);
  }

  /** ReadManyAnswer's loop over blocks first + 1..last. */
  lemma ReadManyLoop(blocks: seq<seq<byte>>, direct: seq<short>, indirect: int, ind: Option<seq<byte>>,
                       pl: Plan, buf: seq<byte>, p: int32)
    requires AllBlocks(blocks) && |direct| == DIRECT_SIZE && pl.size <= |buf| && 0 <= pl.size
    requires 0 <= pl.first < pl.last && 0 <= pl.offset < BLOCK_SIZE && p == BLOCK_SIZE * pl.first + pl.offset
    requires BLOCK_SIZE * pl.last <= p + pl.size
    requires Resolve(blocks, direct, indirect, pl.first).Some?
    requires ind.Some? ==> OnDisk(blocks, indirect) && ind.value == blocks[indirect]
    requires pl.last >= DIRECT_SIZE ==> ind.Some?
    ensures var e := ReadLoop(blocks, direct, ind, pl.first + 1, pl.last, pl.size, BLOCK_SIZE - pl.offset, buf, p);
      (e.answer == Returned(pl.size as int) <==> Resolves(blocks, direct, indirect, pl.first, pl.last))
      && (e.answer != Returned(pl.size as int) ==>
            e.answer == Returned(-1) || (e.answer == Threw && pl.last >= DIRECT_SIZE + INDIRECT_SLOTS))
  {
    ReadLoopAnswer(blocks, direct, indirect, ind, pl.first + 1, pl.last, pl.size, BLOCK_SIZE - pl.offset, buf, p);
    assert Resolves(blocks, direct, indirect, pl.first, pl.last) == Resolves(blocks, direct, indirect, pl.first + 1, pl.last);
  }

  /** ReadBuffer once the plan is made. */
  lemma ReadFromBuffer(blocks: seq<seq<byte>>, direct: seq<short>, indirect: int, pl: Plan, p: int32, buf: seq<byte>)
    requires AllBlocks(blocks) && |direct| == DIRECT_SIZE && Laid(pl, p) && pl.size <= |buf|
    requires ReadFrom(blocks, direct, indirect, pl, p, buf).answer == Returned(pl.size as int)
    ensures var e := ReadFrom(blocks, direct, indirect, pl, p, buf);
      e.buffer[..pl.size] == FileBytes(blocks, direct, indirect, p, pl.size as nat)
      && e.buffer[pl.size..] == buf[pl.size..]
      && e.seekPtr == if pl.count == 1 then p + pl.size else p + pl.size - (BLOCK_SIZE - pl.offset)
  {
    ReadFirstOpens(blocks, direct, indirect, pl, p);
    var o := ReadFirst(blocks, direct, indirect, pl);
    var b := Resolve(blocks, direct, indirect, pl.first).value;
    if pl.count == 1 {
      ReadOneBuffer(blocks, direct, indirect, pl, p, buf, b);
    } else {
      var next := ReadManyFirst(blocks, direct, indirect, pl, p, buf);
      ReadManyBuffer(blocks, direct, indirect, o.ind, pl, p, buf, b);
    }
  }

  /** ReadFromBuffer when one block is read: bytes offset..offset + size of block b. */
  lemma ReadOneBuffer(blocks: seq<seq<byte>>, direct: seq<short>, indirect: int, pl: Plan, p: int32, buf: seq<byte>, b: int)
    requires AllBlocks(blocks) && |direct| == DIRECT_SIZE && Laid(pl, p) && pl.size <= |buf| && pl.count == 1
    requires Resolve(blocks, direct, indirect, pl.first) == Some(b)
    requires CopyFits(BLOCK_SIZE, pl.offset, |buf|, 0, pl.size)
    ensures var next := Copy(buf, 0, blocks[b], pl.offset, pl.size);
      next[..pl.size] == FileBytes(blocks, direct, indirect, p, pl.size as nat) && next[pl.size..] == buf[pl.size..]
  {
    FileBytesInBlock(blocks, direct, indirect, p, pl.first, pl.offset, pl.size as nat, b);
  }

  /** Byte x lies in block q. */
  lemma BlockOf(x: int, q: int)
    requires BLOCK_SIZE * q <= x < BLOCK_SIZE * q + BLOCK_SIZE
    ensures x / BLOCK_SIZE == q
  {
  }

  /** ReadFromBuffer when several blocks are read: the first block's tail, then the loop. */
  lemma ReadManyBuffer(blocks: seq<seq<byte>>, direct: seq<short>, indirect: int, ind: Option<seq<byte>>,
                       pl: Plan, p: int32, buf: seq<byte>, b: int)
    requires AllBlocks(blocks) && |direct| == DIRECT_SIZE && Laid(pl, p) && pl.size <= |buf| && pl.count != 1
    requires Resolve(blocks, direct, indirect, pl.first) == Some(b)
    requires ind.Some? ==> OnDisk(blocks, indirect) && ind.value == blocks[indirect]
    requires CopyFits(BLOCK_SIZE, pl.offset, |buf|, 0, BLOCK_SIZE - pl.offset)
    requires var next := Copy(buf, 0, blocks[b], pl.offset, BLOCK_SIZE - pl.offset);
      ReadLoop(blocks, direct, ind, pl.first + 1, pl.last, pl.size, BLOCK_SIZE - pl.offset, next, p).answer
        == Returned(pl.size as int)
    ensures var next := Copy(buf, 0, blocks[b], pl.offset, BLOCK_SIZE - pl.offset);
      var e := ReadLoop(blocks, direct, ind, pl.first + 1, pl.last, pl.size, BLOCK_SIZE - pl.offset, next, p);
      e.buffer[..pl.size] == FileBytes(blocks, direct, indirect, p, pl.size as nat)
      && e.buffer[pl.size..] == buf[pl.size..] && e.seekPtr == p + pl.size - (BLOCK_SIZE - pl.offset)
  {
    ReadManyHead(blocks, direct, indirect, pl, p, buf, b);
    ReadManyTail(blocks, direct, indirect, ind, pl, p, buf, Copy(buf, 0, blocks[b], pl.offset, BLOCK_SIZE - pl.offset));
  }

  /** The loop of ReadManyBuffer over a buffer `next` that holds the first block's tail. */
  lemma ReadManyTail(blocks: seq<seq<byte>>, direct: seq<short>, indirect: int, ind: Option<seq<byte>>,
                     pl: Plan, p: int32, buf: seq<byte>, next: seq<byte>)
    requires AllBlocks(blocks) && |direct| == DIRECT_SIZE && Laid(pl, p) && pl.size <= |buf| == |next| && pl.count != 1
    requires ind.Some? ==> OnDisk(blocks, indirect) && ind.value == blocks[indirect]
    requires var head := BLOCK_SIZE - pl.offset;
      next[..head] == FileBytes(blocks, direct, indirect, p, head) && next[pl.size..] == buf[pl.size..]
      && p + head == (pl.first + 1) * BLOCK_SIZE && pl.last == (p + pl.size) / BLOCK_SIZE && head <= pl.size
    requires ReadLoop(blocks, direct, ind, pl.first + 1, pl.last, pl.size, BLOCK_SIZE - pl.offset, next, p).answer
        == Returned(pl.size as int)
    ensures var e := ReadLoop(blocks, direct, ind, pl.first + 1, pl.last, pl.size, BLOCK_SIZE - pl.offset, next, p);
      e.buffer[..pl.size] == FileBytes(blocks, direct, indirect, p, pl.size as nat)
      && e.buffer[pl.size..] == buf[pl.size..] && e.seekPtr == p + pl.size - (BLOCK_SIZE - pl.offset)
  {
    ReadLoopBuffer(blocks, direct, indirect, ind, pl.first + 1, pl.last, pl.size, BLOCK_SIZE - pl.offset, next, p, p);
  }

  /** The first block's tail in ReadManyBuffer: the file's first bytes, the rest of the buffer untouched, block first + 1 next. */
  lemma ReadManyHead(blocks: seq<seq<byte>>, direct: seq<short>, indirect: int, pl: Plan, p: int32, buf: seq<byte>, b: int)
    requires AllBlocks(blocks) && |direct| == DIRECT_SIZE && Laid(pl, p) && pl.size <= |buf| && pl.count != 1
    requires Resolve(blocks, direct, indirect, pl.first) == Some(b)
    requires CopyFits(BLOCK_SIZE, pl.offset, |buf|, 0, BLOCK_SIZE - pl.offset)
    ensures var head := BLOCK_SIZE - pl.offset;
      var next := Copy(buf, 0, blocks[b], pl.offset, head);
      next[..head] == FileBytes(blocks, direct, indirect, p, head) && next[pl.size..] == buf[pl.size..]
      && p + head == (pl.first + 1) * BLOCK_SIZE && pl.last == (p + pl.size) / BLOCK_SIZE && head <= pl.size
  {
    var head := BLOCK_SIZE - pl.offset;
    var next := Copy(buf, 0, blocks[b], pl.offset, head);
    FileBytesInBlock(blocks, direct, indirect, p, pl.first, pl.offset, head as nat, b);
    assert next[..head] == blocks[b][pl.offset..pl.offset + head];
    BlockOf(p + pl.size, pl.last);
    assert next[pl.size..] == next[head..][pl.size - head..];
  }

  /**
   * read from seek pointer p < length, without int overflow, returns
   * min(buffer length, length - p) exactly when every logical block from
   * p's to lastBlock = (p + size) / 512 resolves and, when lastBlock reaches
   * 10, the indirect block can be read. Otherwise it returns -1, or throws
   * only past the 267th block.
   */
  lemma ReadAnswer(blocks: seq<seq<byte>>, direct: seq<short>, indirect: int, length: int32, p: int32, buf: seq<byte>)
    requires AllBlocks(blocks) && |direct| == DIRECT_SIZE
    requires 0 <= p < length && p + |buf| < TWO_31
    ensures var e := ReadBody(blocks, direct, indirect, length, p, buf);
      var size := if |buf| < length - p then |buf| else length - p;
      var last := (p + size) / BLOCK_SIZE;
      (e.answer == Returned(size) <==>
         Spans(blocks, direct, indirect, p, size) && (last >= DIRECT_SIZE - 1 ==> OnDisk(blocks, indirect)))
      && (e.answer != Returned(size) ==>
            e.answer == Returned(-1) || (e.answer == Threw && last >= DIRECT_SIZE + INDIRECT_SLOTS))
  {
    var pl := ReadPlan(p, |buf|, length);
    ReadPlanSize(p, |buf|, length);
    PlanArithmetic(p, pl.size);
    ReadFromAnswer(blocks, direct, indirect, pl, p, buf);
  }

  /**
   * A read from p < length that returns its size, without int overflow,
   * leaves the file's bytes from p at the front of the buffer and the rest
   * as it was; the seek pointer moves by the size, less the first block's
   * share when more than one block is read.
   */
  lemma ReadBuffer(blocks: seq<seq<byte>>, direct: seq<short>, indirect: int, length: int32, p: int32, buf: seq<byte>)
    requires AllBlocks(blocks) && |direct| == DIRECT_SIZE
    requires 0 <= p < length && p + |buf| < TWO_31
    requires var size := if |buf| < length - p then |buf| else length - p;
      ReadBody(blocks, direct, indirect, length, p, buf).answer == Returned(size)
    ensures var e := ReadBody(blocks, direct, indirect, length, p, buf);
      var size := if |buf| < length - p then |buf| else length - p;
      e.buffer[..size] == FileBytes(blocks, direct, indirect, p, size)
      && e.buffer[size..] == buf[size..]
      && e.seekPtr == if p % BLOCK_SIZE + size < BLOCK_SIZE then p + size
                      else p + size - (BLOCK_SIZE - p % BLOCK_SIZE)
  {
    var pl := ReadPlan(p, |buf|, length);
    ReadPlanSize(p, |buf|, length);
    PlanArithmetic(p, pl.size);
    ReadFromBuffer(blocks, direct, indirect, pl, p, buf);
  }

  // ---------------------------------------------------------------------------
  // write

  /** What write changes: the allocator with the device, the inode's pointers and length, the seek pointer. */
  datatype WriteState = WriteState(alloc: Allocator, direct: seq<short>, indirect: short, length: int32, seekPtr: int32)

  /** How write ends: its answer (or an exception) and the state at that point. */
  datatype WriteEnd = WriteEnd(answer: Outcome<int>, st: WriteState)

  ghost predicate Sane(st: WriteState)
  {
    AllBlocks(st.alloc.blocks) && |st.direct| == DIRECT_SIZE
  }

  /** A pointer holding `hole` gets a block from getNextFreeBlock (-1 when none is left); any other stays. */
  function Fill(a: Allocator, totalInodes: int32, ptr: short, hole: short): (g: Grant)
    requires AllBlocks(a.blocks)
    ensures AllBlocks(g.after.blocks) && |g.after.blocks| == |a.blocks|
    ensures ptr != hole ==> g == Grant(ptr, a)
  {
    if ptr == hole then Allocate(a, totalInodes) else Grant(ptr, a)
  }

  /** One stage of write: stopped with an answer, or going on with block `ptr` and the pointer table `ind`. */
  datatype Step = Stop(end: WriteEnd) | Go(st: WriteState, ind: Option<seq<byte>>, ptr: short)

  /**
   * write up to the first copy: an indirect start fills a missing indirect
   * block and a 0 entry (writing the pointer table into the new data block),
   * a direct start loads the indirect block when the transfer reaches it and
   * fills a missing direct pointer; then the block is read.
   */
  function WriteFirst(st: WriteState, totalInodes: int32, pl: Plan): (r: Step)
    requires Sane(st)
    ensures r.Stop? ==> Sane(r.end.st) && (r.end.answer == Returned(-1) || r.end.answer == Threw)
    ensures r.Go? ==>
      Sane(r.st) && 0 <= pl.first && OnDisk(r.st.alloc.blocks, r.ptr) && (r.ind.Some? ==> |r.ind.value| == BLOCK_SIZE)
  {
    if pl.first >= DIRECT_SIZE then
      var g := Fill(st.alloc, totalInodes, st.indirect, -1);
      var st1 := st.(alloc := g.after, indirect := g.block);
      if g.block == -1 || !OnDisk(g.after.blocks, g.block) then Stop(WriteEnd(Returned(-1), st1))
      else
        var table := g.after.blocks[g.block];
        var idx := Short((pl.first - DIRECT_SIZE) * 2);
        if !ShortFits(idx) then Stop(WriteEnd(Threw, st1))
        else
          var entry := GetShort(table, idx);
          if entry == 0 then
            var h := Allocate(g.after, totalInodes);
            var st2 := st1.(alloc := h.after);
            if h.block == -1 || !OnDisk(h.after.blocks, h.block) then Stop(WriteEnd(Returned(-1), st2))
            else
              var table' := PutShort(table, idx, h.block);
              Go(st2.(alloc := h.after.(blocks := h.after.blocks[h.block := table'])), Some(table'), h.block)
          else if !OnDisk(g.after.blocks, entry) then Stop(WriteEnd(Returned(-1), st1))
          else Go(st1, Some(table), entry)
    else
      var loads := pl.first + pl.count >= DIRECT_SIZE;
      var g := if loads then Fill(st.alloc, totalInodes, st.indirect, -1) else Grant(st.indirect, st.alloc);
      var st1 := st.(alloc := g.after, indirect := g.block);
      if loads && (g.block == -1 || !OnDisk(g.after.blocks, g.block)) then Stop(WriteEnd(Returned(-1), st1))
      else if pl.first < 0 then Stop(WriteEnd(Threw, st1))
      else
        var ind := if loads then Some(g.after.blocks[g.block]) else None;
        var h := Fill(g.after, totalInodes, st.direct[pl.first], -1);
        var st2 := st1.(alloc := h.after, direct := st.direct[pl.first := h.block]);
        if h.block == -1 || !OnDisk(h.after.blocks, h.block) then Stop(WriteEnd(Returned(-1), st2))
        else Go(st2, ind, h.block)
  }

  /** `chunk` more bytes written at the seek pointer: the block replaced, seekPtr and length both advanced. */
  function Advance(st: WriteState, b: int, data: seq<byte>, chunk: int32): (r: WriteState)
    requires Sane(st) && |data| == BLOCK_SIZE
    ensures Sane(r)
  {
    st.(alloc := st.alloc.(blocks := Store(st.alloc.blocks, b, data)),
        seekPtr := Int32(st.seekPtr + chunk), length := Int32(st.length + chunk))
  }

  /** write's first copy: `head` bytes of the buffer into the first block at blockOffset, written back. */
  function WriteHead(st: WriteState, totalInodes: int32, pl: Plan, buf: seq<byte>): (r: Step)
    requires Sane(st)
    ensures Fine(r) && (r.Go? ==> 0 <= pl.first && 0 <= pl.offset <= BLOCK_SIZE)
  {
    match WriteFirst(st, totalInodes, pl)
    case Stop(e) => Stop(e)
    case Go(st1, ind, b) =>
      var head := if pl.count == 1 then pl.size else BLOCK_SIZE - pl.offset;
      if !CopyFits(|buf|, 0, BLOCK_SIZE, pl.offset, head) then Stop(WriteEnd(Threw, st1))
      else Go(Advance(st1, b, Copy(st1.alloc.blocks[b], pl.offset, buf, 0, head), head), ind, b)
  }

  /**
   * The pointer write's loop uses for logical block n: a 0 indirect entry is
   * filled and the pointer table written back to the indirect block, a -1
   * direct pointer is filled in the inode.
   */
  function WritePointer(st: WriteState, totalInodes: int32, ind: Option<seq<byte>>, n: int): (r: Step)
    requires Sane(st) && 0 <= n && (ind.Some? ==> |ind.value| == BLOCK_SIZE)
    ensures r.Stop? ==> Sane(r.end.st) && (r.end.answer == Returned(-1) || r.end.answer == Threw)
    ensures r.Go? ==> Sane(r.st) && (r.ind.Some? ==> |r.ind.value| == BLOCK_SIZE)
  {
    if n >= DIRECT_SIZE then
      var idx := Short((n - DIRECT_SIZE) * 2);
      if ind.None? || !ShortFits(idx) then Stop(WriteEnd(Threw, st))
      else
        var ptr := GetShort(ind.value, idx);
        if ptr != 0 then Go(st, ind, ptr)
        else
          var g := Allocate(st.alloc, totalInodes);
          if g.block == -1 then Stop(WriteEnd(Returned(-1), st.(alloc := g.after)))
          else
            var table := PutShort(ind.value, idx, g.block);
            if !OnDisk(g.after.blocks, st.indirect) then Stop(WriteEnd(Returned(-1), st.(alloc := g.after)))
            else Go(st.(alloc := g.after.(blocks := g.after.blocks[st.indirect := table])), Some(table), g.block)
    else
      var g := Fill(st.alloc, totalInodes, st.direct[n], -1);
      if g.block == -1 then Stop(WriteEnd(Returned(-1), st.(alloc := g.after, direct := st.direct[n := g.block])))
      else Go(st.(alloc := g.after, direct := st.direct[n := g.block]), ind, g.block)
  }

  /** One pass of write's loop: the pointer for block n, read, `chunk` bytes of the buffer from bo, written back. */
  function WriteStep(st: WriteState, totalInodes: int32, ind: Option<seq<byte>>, n: int, chunk: int32, bo: int32, buf: seq<byte>): (r: Step)
    requires Sane(st) && 0 <= n && (ind.Some? ==> |ind.value| == BLOCK_SIZE)
    ensures Fine(r)
  {
    match WritePointer(st, totalInodes, ind, n)
    case Stop(e) => Stop(e)
    case Go(st1, ind1, ptr) =>
      if !OnDisk(st1.alloc.blocks, ptr) then Stop(WriteEnd(Returned(-1), st1))
      else if !CopyFits(|buf|, bo, BLOCK_SIZE, 0, chunk) then Stop(WriteEnd(Threw, st1))
      else Go(Advance(st1, ptr, Copy(st1.alloc.blocks[ptr], 0, buf, bo, chunk), chunk), ind1, ptr)
  }

  /** A stage that left a sane state behind, and stopped only with -1 or an exception. */
  ghost predicate Fine(w: Step)
  {
    match w
    case Stop(e) => Sane(e.st) && (e.answer == Returned(-1) || e.answer == Threw)
    case Go(st, ind, _) => Sane(st) && (ind.Some? ==> |ind.value| == BLOCK_SIZE)
  }

  /**
   * write's loop over blocks n..last: each copies min(512, size - bo) bytes
   * of the buffer from bo to the start of its block.
   */
  function WriteLoop(st: WriteState, totalInodes: int32, ind: Option<seq<byte>>,
                     n: int, last: int, size: int32, bo: int32, buf: seq<byte>): (e: WriteEnd)
    requires Sane(st) && 0 <= n && (ind.Some? ==> |ind.value| == BLOCK_SIZE)
    ensures Sane(e.st)
    ensures e.answer == Returned(size as int) || e.answer == Returned(-1) || e.answer == Threw
    decreases last - n, 1
  {
    if n > last then WriteEnd(Returned(size), st)
    else
      var chunk := Chunk(size, bo);
      WriteOn(WriteStep(st, totalInodes, ind, n, chunk, bo, buf), totalInodes, n, last, size, Int32(bo + chunk), buf)
  }

  /** What follows the pass of write's loop over block n: its end, or the loop from block n + 1 with the buffer at bo. */
  function WriteOn(w: Step, totalInodes: int32, n: int, last: int, size: int32, bo: int32, buf: seq<byte>): (e: WriteEnd)
    requires Fine(w) && 0 <= n <= last
    ensures Sane(e.st)
    ensures e.answer == Returned(size as int) || e.answer == Returned(-1) || e.answer == Threw
    decreases last - n, 0
  {
    match w
    case Stop(e) => e
    case Go(st1, ind1, _) => WriteLoop(st1, totalInodes, ind1, n + 1, last, size, bo, buf)
  }

  /** write once its plan is made: the first block, then the rest. */
  function WriteFrom(st: WriteState, totalInodes: int32, pl: Plan, buf: seq<byte>): (e: WriteEnd)
    requires Sane(st)
    ensures Sane(e.st)
    ensures e.answer == Returned(pl.size as int) || e.answer == Returned(-1) || e.answer == Threw
  {
    WriteRest(WriteHead(st, totalInodes, pl, buf), totalInodes, pl, buf)
  }

  /** What follows write's first copy `f`: its end, the answer when one block was all, or the first block's tail and the loop. */
  function WriteRest(f: Step, totalInodes: int32, pl: Plan, buf: seq<byte>): (e: WriteEnd)
    requires Fine(f) && (f.Go? ==> 0 <= pl.first && 0 <= pl.offset <= BLOCK_SIZE)
    ensures Sane(e.st)
    ensures e.answer == Returned(pl.size as int) || e.answer == Returned(-1) || e.answer == Threw
  {
    match f
    case Stop(e) => e
    case Go(st1, ind, _) =>
      if pl.count == 1 then WriteEnd(Returned(pl.size), st1)
      else WriteLoop(st1, totalInodes, ind, pl.first + 1, pl.last, pl.size, BLOCK_SIZE - pl.offset, buf)
  }

  /**
   * write after its argument checks and waitWrite: the state `st` (seek
   * pointer st.seekPtr) and buffer `buf`, with getNextFreeBlock's totalInodes.
   */
  function WriteBody(st: WriteState, totalInodes: int32, buf: seq<byte>): (e: WriteEnd)
    requires Sane(st) && |buf| < TWO_31
    ensures Sane(e.st)
    ensures e.answer == Returned(WritePlan(st.seekPtr, |buf|).size as int) || e.answer == Returned(-1) || e.answer == Threw
  {
    WriteFrom(st, totalInodes, WritePlan(st.seekPtr, |buf|), buf)
  }

  /** Every pointer of `st` that is not a hole (-1) is still there in `st'`. */
  ghost predicate Keeps(st: WriteState, st': WriteState)
  {
    |st.direct| == |st'.direct| == DIRECT_SIZE
    && (forall n | 0 <= n < DIRECT_SIZE && st.direct[n] != -1 :: st'.direct[n] == st.direct[n])
    && (st.indirect != -1 ==> st'.indirect == st.indirect)
  }

  /** Direct pointers n..min(last, 10) are all filled. */
  ghost predicate Filled(st: WriteState, n: int, last: int)
  {
    |st.direct| == DIRECT_SIZE && forall m | n <= m <= last && 0 <= m < DIRECT_SIZE :: st.direct[m] != -1
  }

  lemma FilledStep(st: WriteState, n: int, last: int)
    requires Filled(st, n + 1, last) && (0 <= n < DIRECT_SIZE ==> st.direct[n] != -1)
    ensures Filled(st, n, last)
  {
  }

  lemma KeepsTrans(a: WriteState, b: WriteState, c: WriteState)
    requires Keeps(a, b) && Keeps(b, c)
    ensures Keeps(a, c)
  {
  }

  /** The loop's step only fills holes; a direct block it goes on to is the inode's pointer. */
  lemma WriteStepKeeps(st: WriteState, totalInodes: int32, ind: Option<seq<byte>>, n: int, chunk: int32, bo: int32, buf: seq<byte>)
    requires Sane(st) && 0 <= n && (ind.Some? ==> |ind.value| == BLOCK_SIZE)
    ensures var w := WriteStep(st, totalInodes, ind, n, chunk, bo, buf);
      (w.Stop? ==> Keeps(st, w.end.st))
      && (w.Go? ==> Keeps(st, w.st) && (n < DIRECT_SIZE ==> w.st.direct[n] != -1))
  {
    WritePointerKeeps(st, totalInodes, ind, n);
  }

  /** write's first copy only fills holes; a direct first block is set afterwards. */
  lemma WriteHeadKeeps(st: WriteState, totalInodes: int32, pl: Plan, buf: seq<byte>)
    requires Sane(st)
    ensures var f := WriteHead(st, totalInodes, pl, buf);
      (f.Stop? ==> Keeps(st, f.end.st))
      && (f.Go? ==> Keeps(st, f.st) && Filled(f.st, pl.first, pl.first))
  {
    WriteFirstKeeps(st, totalInodes, pl);
  }

  /** The loop's pointer step only fills holes; a direct block it goes on to is the inode's pointer. */
  lemma WritePointerKeeps(st: WriteState, totalInodes: int32, ind: Option<seq<byte>>, n: int)
    requires Sane(st) && 0 <= n && (ind.Some? ==> |ind.value| == BLOCK_SIZE)
    ensures var w := WritePointer(st, totalInodes, ind, n);
      (w.Stop? ==> Keeps(st, w.end.st))
      && (w.Go? ==> Keeps(st, w.st) && (n < DIRECT_SIZE ==> w.st.direct[n] == w.ptr))
  {
  }

  /** write's first block only fills holes; when it starts on a direct block, that is the inode's pointer. */
  lemma WriteFirstKeeps(st: WriteState, totalInodes: int32, pl: Plan)
    requires Sane(st)
    ensures var f := WriteFirst(st, totalInodes, pl);
      (f.Stop? ==> Keeps(st, f.end.st))
      && (f.Go? ==> Keeps(st, f.st) && (pl.first < DIRECT_SIZE ==> f.st.direct[pl.first] == f.ptr))
  {
  }

  /** write's loop only fills holes: a pointer that was set stays. */
  lemma {:induction false} WriteLoopKeeps(st: WriteState, totalInodes: int32, ind: Option<seq<byte>>,
                                           n: int, last: int, size: int32, bo: int32, buf: seq<byte>)
    requires Sane(st) && 0 <= n && (ind.Some? ==> |ind.value| == BLOCK_SIZE)
    ensures Keeps(st, WriteLoop(st, totalInodes, ind, n, last, size, bo, buf).st)
    decreases last - n, 1
  {
    if n <= last {
      var chunk := Chunk(size, bo);
      var w := WriteStep(st, totalInodes, ind, n, chunk, bo, buf);
      WriteStepKeeps(st, totalInodes, ind, n, chunk, bo, buf);
      assert WriteLoop(st, totalInodes, ind, n, last, size, bo, buf) == WriteOn(w, totalInodes, n, last, size, Int32(bo + chunk), buf);
      WriteOnKeeps(st, w, totalInodes, n, last, size, Int32(bo + chunk), buf);
    }
  }

  lemma {:induction false} WriteOnKeeps(st: WriteState, w: Step, totalInodes: int32, n: int, last: int, size: int32, bo: int32, buf: seq<byte>)
    requires Fine(w) && 0 <= n <= last
    requires w.Stop? ==> Keeps(st, w.end.st)
    requires w.Go? ==> Keeps(st, w.st)
    ensures Keeps(st, WriteOn(w, totalInodes, n, last, size, bo, buf).st)
    decreases last - n, 0
  {
    if w.Go? {
      WriteLoopKeeps(w.st, totalInodes, w.ind, n + 1, last, size, bo, buf);
      KeepsTrans(st, w.st, WriteOn(w, totalInodes, n, last, size, bo, buf).st);
    }
  }

  /** When write's loop gets through, every direct pointer it visited is set. */
  lemma {:induction false} WriteLoopFills(st: WriteState, totalInodes: int32, ind: Option<seq<byte>>,
                                           n: int, last: int, size: int32, bo: int32, buf: seq<byte>)
    requires Sane(st) && 0 <= n && (ind.Some? ==> |ind.value| == BLOCK_SIZE) && 0 <= size
    requires WriteLoop(st, totalInodes, ind, n, last, size, bo, buf).answer == Returned(size as int)
    ensures Filled(WriteLoop(st, totalInodes, ind, n, last, size, bo, buf).st, n, last)
    decreases last - n, 1
  {
    if n <= last {
      var chunk := Chunk(size, bo);
      var w := WriteStep(st, totalInodes, ind, n, chunk, bo, buf);
      WriteStepKeeps(st, totalInodes, ind, n, chunk, bo, buf);
      assert WriteLoop(st, totalInodes, ind, n, last, size, bo, buf) == WriteOn(w, totalInodes, n, last, size, Int32(bo + chunk), buf);
      WriteOnFills(w, totalInodes, n, last, size, Int32(bo + chunk), buf);
    }
  }

  lemma {:induction false} WriteOnFills(w: Step, totalInodes: int32, n: int, last: int, size: int32, bo: int32, buf: seq<byte>)
    requires Fine(w) && 0 <= n <= last && 0 <= size
    requires w.Go? && n < DIRECT_SIZE ==> w.st.direct[n] != -1
    requires WriteOn(w, totalInodes, n, last, size, bo, buf).answer == Returned(size as int)
    ensures Filled(WriteOn(w, totalInodes, n, last, size, bo, buf).st, n, last)
    decreases last - n, 0
  {
    if w.Go? {
      var e := WriteOn(w, totalInodes, n, last, size, bo, buf);
      WriteLoopFills(w.st, totalInodes, w.ind, n + 1, last, size, bo, buf);
      WriteLoopKeeps(w.st, totalInodes, w.ind, n + 1, last, size, bo, buf);
      FilledStep(e.st, n, last);
    }
  }

  /**
   * write only fills holes: every direct pointer and the indirect pointer
   * that was set before is unchanged after, and a write that returns its
   * size has set every direct pointer from blockNum to lastBlock.
   */
  lemma WriteKeeps(st: WriteState, totalInodes: int32, buf: seq<byte>)
    requires Sane(st) && |buf| < TWO_31
    ensures var e := WriteBody(st, totalInodes, buf);
      var pl := WritePlan(st.seekPtr, |buf|);
      Keeps(st, e.st) && (Laid(pl, st.seekPtr) && e.answer == Returned(pl.size as int) ==> Filled(e.st, pl.first, pl.last))
  {
    var pl := WritePlan(st.seekPtr, |buf|);
    WriteHeadKeeps(st, totalInodes, pl, buf);
    WriteRestKeeps(st, WriteHead(st, totalInodes, pl, buf), totalInodes, pl, buf);
  }

  lemma WriteRestKeeps(st: WriteState, f: Step, totalInodes: int32, pl: Plan, buf: seq<byte>)
    requires Fine(f) && (f.Go? ==> 0 <= pl.first && 0 <= pl.offset <= BLOCK_SIZE)
    requires f.Stop? ==> Keeps(st, f.end.st)
    requires f.Go? ==> Keeps(st, f.st) && Filled(f.st, pl.first, pl.first)
    ensures var e := WriteRest(f, totalInodes, pl, buf);
      Keeps(st, e.st)
      && (0 <= pl.size && pl.count == pl.last - pl.first + 1 && e.answer == Returned(pl.size as int) ==> Filled(e.st, pl.first, pl.last))
  {
    if f.Go? && pl.count != 1 {
      var e := WriteLoop(f.st, totalInodes, f.ind, pl.first + 1, pl.last, pl.size, BLOCK_SIZE - pl.offset, buf);
      WriteLoopKeeps(f.st, totalInodes, f.ind, pl.first + 1, pl.last, pl.size, BLOCK_SIZE - pl.offset, buf);
      KeepsTrans(st, f.st, e.st);
      if 0 <= pl.size && e.answer == Returned(pl.size as int) {
        WriteLoopFills(f.st, totalInodes, f.ind, pl.first + 1, pl.last, pl.size, BLOCK_SIZE - pl.offset, buf);
        FilledStep(e.st, pl.first, pl.last);
      }
    }
  }

  // ---------------------------------------------------------------------------
  // write over blocks that are already in place

  /**
   * Logical blocks first..last all resolve, to distinct blocks other than the
   * indirect block (past the direct pointers, other than block 0 too, which
   * write takes for a missing entry), and the indirect block is on the device
   * when lastBlock reaches 10.
   */
  ghost predicate InPlace(blocks: seq<seq<byte>>, direct: seq<short>, indirect: int, first: int, last: int)
    requires AllBlocks(blocks) && |direct| == DIRECT_SIZE
  {
    (forall m | first <= m <= last ::
       Resolve(blocks, direct, indirect, m).Some? && Resolve(blocks, direct, indirect, m).value != indirect
       && (m >= DIRECT_SIZE ==> Resolve(blocks, direct, indirect, m).value != 0))
    && (forall m, m' | first <= m < m' <= last :: Resolve(blocks, direct, indirect, m) != Resolve(blocks, direct, indirect, m'))
    && (last >= DIRECT_SIZE - 1 ==> OnDisk(blocks, indirect))
  }

  /** Writing a block other than the indirect block moves no logical block. */
  lemma ResolveStore(blocks: seq<seq<byte>>, direct: seq<short>, indirect: int, b: int, data: seq<byte>, m: int)
    requires AllBlocks(blocks) && |direct| == DIRECT_SIZE && b != indirect && |data| == BLOCK_SIZE
    ensures AllBlocks(Store(blocks, b, data))
    ensures Resolve(Store(blocks, b, data), direct, indirect, m) == Resolve(blocks, direct, indirect, m)
  {
  }

  lemma InPlaceStore(blocks: seq<seq<byte>>, direct: seq<short>, indirect: int, first: int, last: int, b: int, data: seq<byte>)
    requires AllBlocks(blocks) && |direct| == DIRECT_SIZE && b != indirect && |data| == BLOCK_SIZE
    requires InPlace(blocks, direct, indirect, first, last)
    ensures AllBlocks(Store(blocks, b, data)) && InPlace(Store(blocks, b, data), direct, indirect, first, last)
  {
    forall m {
      ResolveStore(blocks, direct, indirect, b, data, m);
    }
  }

  /** Writing a block that none of the logical blocks first..n-1 resolves to keeps the bytes they hold. */
  lemma FileBytesStore(blocks: seq<seq<byte>>, direct: seq<short>, indirect: int, p: int, k: nat,
                       b: int, data: seq<byte>, first: int, n: int)
    requires AllBlocks(blocks) && |direct| == DIRECT_SIZE && b != indirect && |data| == BLOCK_SIZE
    requires 0 <= p && BLOCK_SIZE * first <= p && p + k <= BLOCK_SIZE * n
    requires forall m | first <= m < n :: Resolve(blocks, direct, indirect, m) != Some(b)
    ensures AllBlocks(Store(blocks, b, data))
    ensures FileBytes(Store(blocks, b, data), direct, indirect, p, k) == FileBytes(blocks, direct, indirect, p, k)
  {
    var after := Store(blocks, b, data);
    forall q | p <= q < p + k
      ensures ByteAt(after, direct, indirect, q) == ByteAt(blocks, direct, indirect, q)
    {
      assert first <= q / BLOCK_SIZE < n;
      ResolveStore(blocks, direct, indirect, b, data, q / BLOCK_SIZE);
    }
  }

  /** The pointer for a logical block in place is found as it is: nothing is allocated. */
  lemma WritePointerInPlace(st: WriteState, totalInodes: int32, ind: Option<seq<byte>>, n: int, first: int, last: int)
    requires Sane(st) && 0 <= first <= n <= last
    requires InPlace(st.alloc.blocks, st.direct, st.indirect, first, last)
    requires ind.Some? ==> OnDisk(st.alloc.blocks, st.indirect) && ind.value == st.alloc.blocks[st.indirect]
    requires n >= DIRECT_SIZE ==> ind.Some?
    ensures var w := WritePointer(st, totalInodes, ind, n);
      w.Go? && w.st == st && w.ind == ind && Resolve(st.alloc.blocks, st.direct, st.indirect, n) == Some(w.ptr as int)
  {
    var r := Resolve(st.alloc.blocks, st.direct, st.indirect, n);
    assert r.Some?;
    if n < DIRECT_SIZE {
      assert r.value == st.direct[n] as int;
      assert st.direct[n := st.direct[n]] == st.direct;
      assert WritePointer(st, totalInodes, ind, n) == Go(st, ind, st.direct[n]);
    } else {
      var idx := Short((n - DIRECT_SIZE) * 2);
      assert idx == (n - DIRECT_SIZE) * 2;
      assert GetShort(ind.value, idx) as int == r.value;
      assert WritePointer(st, totalInodes, ind, n) == Go(st, ind, GetShort(ind.value, idx));
    }
  }

  /** Chunk's bounds while the bytes left fit the blocks left. */
  lemma ChunkBounds(size: int32, bo: int32, left: int)
    requires 0 <= bo <= size && 1 <= left && BLOCK_SIZE * (left - 1) <= size - bo <= BLOCK_SIZE * left
    ensures var chunk := Chunk(size, bo);
      0 <= chunk <= BLOCK_SIZE && bo + chunk <= size
      && BLOCK_SIZE * (left - 2) <= size - (bo + chunk) <= BLOCK_SIZE * (left - 1)
      && (left > 1 ==> chunk == BLOCK_SIZE)
  {
  }

  /**
   * Block n of a file in place, after bytes [p, p + bo) of the buffer, takes
   * the next `chunk` bytes: the bytes before stay and the new ones follow.
   */
  lemma ChunkInPlace(blocks: seq<seq<byte>>, direct: seq<short>, indirect: int, first: int, n: int,
                     p: int, bo: int, chunk: int, buf: seq<byte>, b: int)
    requires AllBlocks(blocks) && |direct| == DIRECT_SIZE && 0 <= first <= n
    requires Resolve(blocks, direct, indirect, n) == Some(b) && b != indirect
    requires forall m | first <= m < n :: Resolve(blocks, direct, indirect, m) != Some(b)
    requires BLOCK_SIZE * first <= p && p + bo == BLOCK_SIZE * n && 0 <= bo && 0 <= chunk <= BLOCK_SIZE && bo + chunk <= |buf|
    requires FileBytes(blocks, direct, indirect, p, bo) == buf[..bo]
    ensures var after := Store(blocks, b, Copy(blocks[b], 0, buf, bo, chunk));
      AllBlocks(after) && FileBytes(after, direct, indirect, p, bo + chunk) == buf[..bo + chunk]
  {
    var data := Copy(blocks[b], 0, buf, bo, chunk);
    var after := Store(blocks, b, data);
    FileBytesStore(blocks, direct, indirect, p, bo, b, data, first, n);
    NewChunk(blocks, direct, indirect, n, p + bo, bo, chunk, buf, b);
    FileBytesJoin(after, direct, indirect, p, bo, chunk, buf);
  }

  /** The file's bytes from p match the buffer up to bo + chunk when they do up to bo and from bo on. */
  lemma FileBytesJoin(blocks: seq<seq<byte>>, direct: seq<short>, indirect: int, p: int, bo: int, chunk: int, buf: seq<byte>)
    requires AllBlocks(blocks) && |direct| == DIRECT_SIZE && 0 <= p && 0 <= bo && 0 <= chunk && bo + chunk <= |buf|
    requires FileBytes(blocks, direct, indirect, p, bo) == buf[..bo]
    requires FileBytes(blocks, direct, indirect, p + bo, chunk) == buf[bo..bo + chunk]
    ensures FileBytes(blocks, direct, indirect, p, bo + chunk) == buf[..bo + chunk]
  {
    FileBytesSplit(blocks, direct, indirect, p, bo, chunk);
    assert buf[..bo + chunk] == buf[..bo] + buf[bo..bo + chunk];
  }

  /** The `chunk` bytes copied to the start of block n's block are the file's bytes from q, its first byte. */
  lemma NewChunk(blocks: seq<seq<byte>>, direct: seq<short>, indirect: int, n: int, q: int, bo: int, chunk: int, buf: seq<byte>, b: int)
    requires AllBlocks(blocks) && |direct| == DIRECT_SIZE && 0 <= n && q == BLOCK_SIZE * n
    requires Resolve(blocks, direct, indirect, n) == Some(b) && b != indirect
    requires 0 <= bo && 0 <= chunk <= BLOCK_SIZE && bo + chunk <= |buf|
    ensures var after := Store(blocks, b, Copy(blocks[b], 0, buf, bo, chunk));
      AllBlocks(after) && FileBytes(after, direct, indirect, q, chunk) == buf[bo..bo + chunk]
  {
    var data := Copy(blocks[b], 0, buf, bo, chunk);
    ResolveStore(blocks, direct, indirect, b, data, n);
    FileBytesInBlock(Store(blocks, b, data), direct, indirect, q, n, 0, chunk, b);
  }

  /**
   * Partway through write's loop over blocks in place first..last: bytes
   * [p, p + bo) of the buffer are in the file, block n (when there is one
   * left) starts at byte p + bo, and size - bo bytes fill the blocks left.
   */
  ghost predicate Midway(st: WriteState, ind: Option<seq<byte>>, n: int, last: int, size: int, bo: int, buf: seq<byte>, p: int, first: int)
  {
    Sane(st) && 0 <= first <= n
    && InPlace(st.alloc.blocks, st.direct, st.indirect, first, last)
    && (ind.Some? ==> OnDisk(st.alloc.blocks, st.indirect) && ind.value == st.alloc.blocks[st.indirect])
    && (last >= DIRECT_SIZE ==> ind.Some?)
    && BLOCK_SIZE * first <= p && (n <= last ==> p + bo == BLOCK_SIZE * n)
    && 0 <= bo <= size <= |buf| && BLOCK_SIZE * (last - n) <= size - bo <= BLOCK_SIZE * (last - n + 1)
    && FileBytes(st.alloc.blocks, st.direct, st.indirect, p, bo) == buf[..bo]
  }

  /** Copying the next chunk into block n's block, with nothing allocated, keeps write partway. */
  lemma MidwayAdvance(st: WriteState, ind: Option<seq<byte>>, n: int, last: int,
                      size: int32, bo: int32, buf: seq<byte>, p: int, first: int)
    requires Midway(st, ind, n, last, size as int, bo as int, buf, p, first) && n <= last
    ensures var chunk := Chunk(size, bo);
      var b := Resolve(st.alloc.blocks, st.direct, st.indirect, n).value;
      var st' := Advance(st, b, Copy(st.alloc.blocks[b], 0, buf, bo, chunk), chunk);
      0 <= chunk && bo + chunk <= size && Int32(bo + chunk) == bo + chunk
      && Midway(st', ind, n + 1, last, size as int, Int32(bo + chunk) as int, buf, p, first)
  {
    var chunk := Chunk(size, bo);
    ChunkBounds(size, bo, last - n + 1);
    var b := Resolve(st.alloc.blocks, st.direct, st.indirect, n).value;
    var data := Copy(st.alloc.blocks[b], 0, buf, bo, chunk);
    InPlaceStore(st.alloc.blocks, st.direct, st.indirect, first, last, b, data);
    ChunkInPlace(st.alloc.blocks, st.direct, st.indirect, first, n, p, bo, chunk, buf, b);
  }

  /**
   * A pass of write's loop over a block in place copies the next `chunk`
   * bytes of the buffer after those already in the file; the pointers and
   * the free list stay, and the seek pointer and the length move by chunk.
   */
  lemma WriteStepInPlace(st: WriteState, totalInodes: int32, ind: Option<seq<byte>>, n: int, last: int,
                         size: int32, bo: int32, buf: seq<byte>, p: int, first: int)
    requires Midway(st, ind, n, last, size as int, bo as int, buf, p, first) && n <= last
    ensures var chunk := Chunk(size, bo);
      var w := WriteStep(st, totalInodes, ind, n, chunk, bo, buf);
      0 <= chunk && bo + chunk <= size
      && w.Go? && w.ind == ind && w.st.direct == st.direct && w.st.indirect == st.indirect
      && w.st.alloc.freeList == st.alloc.freeList
      && w.st.seekPtr == Int32(st.seekPtr + chunk) && w.st.length == Int32(st.length + chunk)
      && Int32(bo + chunk) == bo + chunk
      && Midway(w.st, w.ind, n + 1, last, size as int, Int32(bo + chunk) as int, buf, p, first)
  {
    var chunk := Chunk(size, bo);
    MidwayAdvance(st, ind, n, last, size, bo, buf, p, first);
    WritePointerInPlace(st, totalInodes, ind, n, first, last);
    var b := Resolve(st.alloc.blocks, st.direct, st.indirect, n).value;
    var data := Copy(st.alloc.blocks[b], 0, buf, bo, chunk);
    assert WriteStep(st, totalInodes, ind, n, chunk, bo, buf) == Go(Advance(st, b, data, chunk), ind, b as short);
  }

  /**
   * write's loop over blocks in place, from partway: it returns size with
   * the buffer's first `size` bytes in the file from p, the pointers and the
   * free list as they were, and the seek pointer and the length each moved
   * by size - bo.
   */
  lemma {:induction false} WriteLoopInPlace(st: WriteState, totalInodes: int32, ind: Option<seq<byte>>, n: int, last: int,
                                             size: int32, bo: int32, buf: seq<byte>, p: int, first: int)
    requires Midway(st, ind, n, last, size as int, bo as int, buf, p, first)
    requires st.seekPtr + (size - bo) < TWO_31 && st.length + (size - bo) < TWO_31
    ensures var e := WriteLoop(st, totalInodes, ind, n, last, size, bo, buf);
      e.answer == Returned(size as int) && e.st.direct == st.direct && e.st.indirect == st.indirect
      && e.st.alloc.freeList == st.alloc.freeList
      && e.st.seekPtr == st.seekPtr + size - bo && e.st.length == st.length + size - bo
      && FileBytes(e.st.alloc.blocks, st.direct, st.indirect, p, size as nat) == buf[..size]
      && InPlace(e.st.alloc.blocks, st.direct, st.indirect, first, last)
    decreases last - n, 1
  {
    if n > last {
      MidwayEnd(st, totalInodes, ind, n, last, size, bo, buf, p, first);
    } else {
      var chunk := Chunk(size, bo);
      var w := WriteStep(st, totalInodes, ind, n, chunk, bo, buf);
      LoopInPlaceStep(st, totalInodes, ind, n, last, size, bo, buf, p, first);
      WriteOnInPlace(w, totalInodes, n, last, size, bo + chunk, buf, p, first);
    }
  }

  /** write's loop past the last block, with the plan's bytes all copied: it returns size with the state as it is. */
  lemma MidwayEnd(st: WriteState, totalInodes: int32, ind: Option<seq<byte>>, n: int, last: int,
                  size: int32, bo: int32, buf: seq<byte>, p: int, first: int)
    requires Midway(st, ind, n, last, size as int, bo as int, buf, p, first) && n > last
    ensures WriteLoop(st, totalInodes, ind, n, last, size, bo, buf) == WriteEnd(Returned(size as int), st)
    ensures bo == size && FileBytes(st.alloc.blocks, st.direct, st.indirect, p, size as nat) == buf[..size]
  {
  }

  /** One pass of write's loop in place, as WriteOnInPlace takes it up. */
  lemma LoopInPlaceStep(st: WriteState, totalInodes: int32, ind: Option<seq<byte>>, n: int, last: int,
                        size: int32, bo: int32, buf: seq<byte>, p: int, first: int)
    requires Midway(st, ind, n, last, size as int, bo as int, buf, p, first) && n <= last
    requires st.seekPtr + (size - bo) < TWO_31 && st.length + (size - bo) < TWO_31
    ensures var chunk := Chunk(size, bo);
      var w := WriteStep(st, totalInodes, ind, n, chunk, bo, buf);
      Fine(w) && w.Go? && w.st.direct == st.direct && w.st.indirect == st.indirect
      && w.st.alloc.freeList == st.alloc.freeList
      && WriteLoop(st, totalInodes, ind, n, last, size, bo, buf) == WriteOn(w, totalInodes, n, last, size, Int32(bo + chunk), buf)
      && Midway(w.st, w.ind, n + 1, last, size as int, Int32(bo + chunk) as int, buf, p, first)
      && w.st.seekPtr == st.seekPtr + chunk && w.st.length == st.length + chunk && Int32(bo + chunk) == bo + chunk
  {
    var chunk := Chunk(size, bo);
    WriteStepInPlace(st, totalInodes, ind, n, last, size, bo, buf, p, first);
  }

  lemma {:induction false} WriteOnInPlace(w: Step, totalInodes: int32, n: int, last: int,
                                           size: int32, bo: int32, buf: seq<byte>, p: int, first: int)
    requires Fine(w) && w.Go? && 0 <= n <= last
    requires Midway(w.st, w.ind, n + 1, last, size as int, bo as int, buf, p, first)
    requires w.st.seekPtr + (size - bo) < TWO_31 && w.st.length + (size - bo) < TWO_31
    ensures var e := WriteOn(w, totalInodes, n, last, size, bo, buf);
      e.answer == Returned(size as int) && e.st.direct == w.st.direct && e.st.indirect == w.st.indirect
      && e.st.alloc.freeList == w.st.alloc.freeList
      && e.st.seekPtr == w.st.seekPtr + size - bo && e.st.length == w.st.length + size - bo
      && FileBytes(e.st.alloc.blocks, w.st.direct, w.st.indirect, p, size as nat) == buf[..size]
      && InPlace(e.st.alloc.blocks, w.st.direct, w.st.indirect, first, last)
    decreases last - n, 0
  {
    WriteLoopInPlace(w.st, totalInodes, w.ind, n + 1, last, size, bo, buf, p, first);
  }

  /** write's first block, when blocks first..last are in place: nothing is allocated and the block is the file's. */
  lemma WriteFirstInPlace(st: WriteState, totalInodes: int32, pl: Plan, p: int)
    requires Sane(st) && Laid(pl, p) && InPlace(st.alloc.blocks, st.direct, st.indirect, pl.first, pl.last)
    ensures var f := WriteFirst(st, totalInodes, pl);
      f.Go? && f.st == st && Resolve(st.alloc.blocks, st.direct, st.indirect, pl.first) == Some(f.ptr as int)
      && (f.ind.Some? ==> OnDisk(st.alloc.blocks, st.indirect) && f.ind.value == st.alloc.blocks[st.indirect])
      && (pl.last >= DIRECT_SIZE ==> f.ind.Some?)
  {
    var blocks, direct, indirect := st.alloc.blocks, st.direct, st.indirect;
    var r := Resolve(blocks, direct, indirect, pl.first);
    assert r.Some?;
    if pl.first >= DIRECT_SIZE {
      var idx := Short((pl.first - DIRECT_SIZE) * 2);
      assert idx == (pl.first - DIRECT_SIZE) * 2;
      assert GetShort(blocks[indirect], idx) as int == r.value;
      assert WriteFirst(st, totalInodes, pl) == Go(st, Some(blocks[indirect]), GetShort(blocks[indirect], idx));
    } else {
      assert st.direct[pl.first := st.direct[pl.first]] == st.direct;
      var ind := if pl.last >= DIRECT_SIZE - 1 then Some(blocks[indirect]) else None;
      assert WriteFirst(st, totalInodes, pl) == Go(st, ind, st.direct[pl.first]);
    }
  }

  /** write's first copy over a block in place: the first `head` bytes of the buffer land at p, and write is partway. */
  lemma MidwayHead(st: WriteState, ind: Option<seq<byte>>, pl: Plan, buf: seq<byte>, p: int, b: int)
    requires Sane(st) && Laid(pl, p) && pl.size <= |buf| && InPlace(st.alloc.blocks, st.direct, st.indirect, pl.first, pl.last)
    requires Resolve(st.alloc.blocks, st.direct, st.indirect, pl.first) == Some(b)
    requires ind.Some? ==> OnDisk(st.alloc.blocks, st.indirect) && ind.value == st.alloc.blocks[st.indirect]
    requires pl.last >= DIRECT_SIZE ==> ind.Some?
    ensures var head := if pl.count == 1 then pl.size else BLOCK_SIZE - pl.offset;
      var st' := Advance(st, b, Copy(st.alloc.blocks[b], pl.offset, buf, 0, head), head);
      CopyFits(|buf|, 0, BLOCK_SIZE, pl.offset, head)
      && Midway(st', ind, pl.first + 1, pl.last, pl.size as int, head as int, buf, p, pl.first)
  {
    var head := if pl.count == 1 then pl.size else BLOCK_SIZE - pl.offset;
    var data := Copy(st.alloc.blocks[b], pl.offset, buf, 0, head);
    var after := Store(st.alloc.blocks, b, data);
    InPlaceStore(st.alloc.blocks, st.direct, st.indirect, pl.first, pl.last, b, data);
    ResolveStore(st.alloc.blocks, st.direct, st.indirect, b, data, pl.first);
    FileBytesInBlock(after, st.direct, st.indirect, p, pl.first, pl.offset, head as nat, b);
    assert after[b][pl.offset..pl.offset + head] == buf[..head];
  }

  /** write's first copy over blocks in place: nothing allocated, the first `head` bytes at p, write partway. */
  lemma WriteHeadInPlace(st: WriteState, totalInodes: int32, pl: Plan, buf: seq<byte>, p: int)
    requires Sane(st) && Laid(pl, p) && pl.size <= |buf| && InPlace(st.alloc.blocks, st.direct, st.indirect, pl.first, pl.last)
    ensures var head := if pl.count == 1 then pl.size else BLOCK_SIZE - pl.offset;
      var f := WriteHead(st, totalInodes, pl, buf);
      f.Go? && f.st.direct == st.direct && f.st.indirect == st.indirect && f.st.alloc.freeList == st.alloc.freeList
      && f.st.seekPtr == Int32(st.seekPtr + head) && f.st.length == Int32(st.length + head)
      && Midway(f.st, f.ind, pl.first + 1, pl.last, pl.size as int, head as int, buf, p, pl.first)
  {
    WriteFirstInPlace(st, totalInodes, pl, p);
    var f := WriteFirst(st, totalInodes, pl);
    MidwayHead(st, f.ind, pl, buf, p, f.ptr as int);
  }

  /** What follows write's first copy over blocks in place: the loop gets through and the buffer is in the file. */
  lemma WriteRestInPlace(f: Step, totalInodes: int32, pl: Plan, buf: seq<byte>, p: int)
    requires Fine(f) && f.Go? && 0 <= pl.first && 0 <= pl.offset < BLOCK_SIZE && pl.count == pl.last - pl.first + 1
    requires var head := if pl.count == 1 then pl.size else BLOCK_SIZE - pl.offset;
      Midway(f.st, f.ind, pl.first + 1, pl.last, pl.size as int, head as int, buf, p, pl.first)
      && f.st.seekPtr + (pl.size - head) < TWO_31 && f.st.length + (pl.size - head) < TWO_31
    ensures var head := if pl.count == 1 then pl.size else BLOCK_SIZE - pl.offset;
      var e := WriteRest(f, totalInodes, pl, buf);
      e.answer == Returned(pl.size as int) && e.st.direct == f.st.direct && e.st.indirect == f.st.indirect
      && e.st.alloc.freeList == f.st.alloc.freeList
      && e.st.seekPtr == f.st.seekPtr + pl.size - head && e.st.length == f.st.length + pl.size - head
      && FileBytes(e.st.alloc.blocks, f.st.direct, f.st.indirect, p, pl.size as nat) == buf[..pl.size]
      && InPlace(e.st.alloc.blocks, f.st.direct, f.st.indirect, pl.first, pl.last)
  {
    if pl.count != 1 {
      WriteLoopInPlace(f.st, totalInodes, f.ind, pl.first + 1, pl.last, pl.size, BLOCK_SIZE - pl.offset, buf, p, pl.first);
    }
  }

  /** Without crossing MAX_FILE_SIZE, write's writeSize is the buffer's length. */
  lemma WritePlanSize(p: int32, bufLen: int)
    requires 0 <= p && 0 <= bufLen && p + bufLen <= MAX_FILE_SIZE
    ensures WritePlan(p, bufLen).size == bufLen
  {
  }

  /**
   * write over blocks that are all in place, from seek pointer p >= 0 and
   * within MAX_FILE_SIZE: it returns the buffer's length and the file then
   * holds the buffer from p; no block is allocated, no pointer changes, the
   * seek pointer moves to p + length -- and the inode's length grows by the
   * buffer's length although no byte was added past the end of the file.
   */
  lemma WriteInPlace(st: WriteState, totalInodes: int32, buf: seq<byte>)
    requires Sane(st) && 0 <= st.seekPtr && st.seekPtr + |buf| <= MAX_FILE_SIZE && st.length + |buf| < TWO_31
    requires InPlace(st.alloc.blocks, st.direct, st.indirect, st.seekPtr / BLOCK_SIZE, (st.seekPtr + |buf|) / BLOCK_SIZE)
    ensures var e := WriteBody(st, totalInodes, buf);
      e.answer == Returned(|buf|) && e.st.direct == st.direct && e.st.indirect == st.indirect
      && e.st.alloc.freeList == st.alloc.freeList
      && e.st.seekPtr == st.seekPtr + |buf| && e.st.length == st.length + |buf|
      && FileBytes(e.st.alloc.blocks, st.direct, st.indirect, st.seekPtr, |buf|) == buf
      && InPlace(e.st.alloc.blocks, st.direct, st.indirect, st.seekPtr / BLOCK_SIZE, (st.seekPtr + |buf|) / BLOCK_SIZE)
  {
    var p := st.seekPtr;
    WritePlanSize(p, |buf|);
    var pl := WritePlan(p, |buf|);
    PlanArithmetic(p, pl.size);
    WriteFromInPlace(st, totalInodes, pl, buf, p);
  }

  /** WriteInPlace once the plan is made, over the plan's blocks. */
  lemma WriteFromInPlace(st: WriteState, totalInodes: int32, pl: Plan, buf: seq<byte>, p: int32)
    requires Sane(st) && Laid(pl, p) && pl.size == |buf| && st.seekPtr == p && st.length + |buf| < TWO_31
    requires InPlace(st.alloc.blocks, st.direct, st.indirect, pl.first, pl.last)
    ensures var e := WriteFrom(st, totalInodes, pl, buf);
      e.answer == Returned(|buf|) && e.st.direct == st.direct && e.st.indirect == st.indirect
      && e.st.alloc.freeList == st.alloc.freeList
      && e.st.seekPtr == p + |buf| && e.st.length == st.length + |buf|
      && FileBytes(e.st.alloc.blocks, st.direct, st.indirect, p, |buf|) == buf
      && InPlace(e.st.alloc.blocks, st.direct, st.indirect, pl.first, pl.last)
  {
    WriteHeadInPlace(st, totalInodes, pl, buf, p);
    var f := WriteHead(st, totalInodes, pl, buf);
    var head := if pl.count == 1 then pl.size else BLOCK_SIZE - pl.offset;
    assert 0 <= head <= pl.size;
    assert f.st.seekPtr == st.seekPtr + head && f.st.length == st.length + head;
    WriteRestInPlace(f, totalInodes, pl, buf, p);
    assert buf[..pl.size] == buf;
  }

  /** Bytes of a file in place are read back as they are. */
  lemma ReadInPlace(blocks: seq<seq<byte>>, direct: seq<short>, indirect: int, length: int32, p: int32, into: seq<byte>)
    requires AllBlocks(blocks) && |direct| == DIRECT_SIZE
    requires 0 <= p && 0 < |into| && p + |into| <= length && length < TWO_31
    requires InPlace(blocks, direct, indirect, p / BLOCK_SIZE, (p + |into|) / BLOCK_SIZE)
    ensures var r := ReadBody(blocks, direct, indirect, length, p, into);
      r.answer == Returned(|into|) && r.buffer == FileBytes(blocks, direct, indirect, p, |into|)
  {
    ResolvesAll(blocks, direct, indirect, p / BLOCK_SIZE, (p + |into|) / BLOCK_SIZE);
    ReadAnswer(blocks, direct, indirect, length, p, into);
    ReadBuffer(blocks, direct, indirect, length, p, into);
    var r := ReadBody(blocks, direct, indirect, length, p, into);
    assert r.buffer == r.buffer[..|into|];
  }

  /**
   * A write over blocks in place, from p <= length, is read back: read from
   * the same seek pointer with a buffer of the same length returns that
   * length and fills the buffer with exactly the bytes written.
   */
  lemma WriteThenRead(st: WriteState, totalInodes: int32, buf: seq<byte>, into: seq<byte>)
    requires Sane(st) && 0 <= st.seekPtr <= st.length && st.seekPtr + |buf| <= MAX_FILE_SIZE && st.length + |buf| < TWO_31
    requires InPlace(st.alloc.blocks, st.direct, st.indirect, st.seekPtr / BLOCK_SIZE, (st.seekPtr + |buf|) / BLOCK_SIZE)
    requires 0 < |buf| == |into|
    ensures var e := WriteBody(st, totalInodes, buf);
      var r := ReadBody(e.st.alloc.blocks, st.direct, st.indirect, e.st.length, st.seekPtr, into);
      r.answer == Returned(|buf|) && r.buffer == buf
  {
    WriteInPlace(st, totalInodes, buf);
    var e := WriteBody(st, totalInodes, buf);
    ReadInPlace(e.st.alloc.blocks, st.direct, st.indirect, e.st.length, st.seekPtr, into);
  }

  // ---------------------------------------------------------------------------
  // write starting on a missing entry of the pointer table

  /**
   * write whose first block lies past the direct pointers, in one block, on
   * a 0 entry of the pointer table: getNextFreeBlock hands out the head of
   * the free list, the entry is set in the buffered table, but that table is
   * written to the new block instead of the indirect block and the data
   * overwrites it there. write answers the buffer's length, yet the entry on
   * the device stays 0: the logical block resolves to block 0 while the
   * bytes sit in the new block, which no pointer reaches.
   */
  lemma IndirectStartLosesBlock(st: WriteState, totalInodes: int32, buf: seq<byte>)
    requires Sane(st) && BLOCK_SIZE * DIRECT_SIZE <= st.seekPtr && st.seekPtr + |buf| <= MAX_FILE_SIZE
    requires 0 < |buf| && st.seekPtr % BLOCK_SIZE + |buf| < BLOCK_SIZE
    requires OnDisk(st.alloc.blocks, st.indirect)
    requires GetShort(st.alloc.blocks[st.indirect], (st.seekPtr / BLOCK_SIZE - DIRECT_SIZE) * 2) == 0
    requires 0 < st.alloc.freeList < |st.alloc.blocks| && st.alloc.freeList < TWO_15 && st.alloc.freeList != st.indirect
    ensures var e := WriteBody(st, totalInodes, buf);
      var b := st.alloc.freeList as int;
      var off := st.seekPtr % BLOCK_SIZE;
      e.answer == Returned(|buf|) && e.st.indirect == st.indirect && b < |e.st.alloc.blocks|
      && e.st.alloc.blocks[b][off..off + |buf|] == buf
      && Resolve(e.st.alloc.blocks, e.st.direct, e.st.indirect, st.seekPtr / BLOCK_SIZE) == Some(0)
  {
    var p := st.seekPtr;
    WritePlanSize(p, |buf|);
    var pl := WritePlan(p, |buf|);
    PlanArithmetic(p, pl.size);
    assert pl.count == 1 && pl.first >= DIRECT_SIZE && pl.offset == p % BLOCK_SIZE && pl.size as int == |buf|;
    IndirectStartWrite(st, totalInodes, pl, buf);
  }

  /** IndirectStartLosesBlock once the plan is made: one copy into the granted block, the indirect block untouched. */
  lemma IndirectStartWrite(st: WriteState, totalInodes: int32, pl: Plan, buf: seq<byte>)
    requires Sane(st) && pl.count == 1 && pl.first >= DIRECT_SIZE && ShortFits((pl.first - DIRECT_SIZE) * 2)
    requires 0 <= pl.offset && pl.offset + |buf| <= BLOCK_SIZE && pl.size as int == |buf|
    requires OnDisk(st.alloc.blocks, st.indirect)
    requires GetShort(st.alloc.blocks[st.indirect], (pl.first - DIRECT_SIZE) * 2) == 0
    requires 0 < st.alloc.freeList < |st.alloc.blocks| && st.alloc.freeList < TWO_15 && st.alloc.freeList != st.indirect
    ensures var e := WriteFrom(st, totalInodes, pl, buf);
      var b := st.alloc.freeList;
      e.answer == Returned(|buf|) && e.st.indirect == st.indirect && e.st.direct == st.direct
      && b < |e.st.alloc.blocks| && e.st.alloc.blocks[b][pl.offset..pl.offset + |buf|] == buf
      && e.st.alloc.blocks[st.indirect] == st.alloc.blocks[st.indirect]
  {
    IndirectStartFirst(st, totalInodes, pl);
    var f := WriteFirst(st, totalInodes, pl);
    var st1 := Advance(f.st, f.ptr, Copy(f.st.alloc.blocks[f.ptr], pl.offset, buf, 0, pl.size), pl.size);
    assert WriteHead(st, totalInodes, pl, buf) == Go(st1, f.ind, f.ptr);
  }

  /** The first step of IndirectStartLosesBlock: the free list's head granted, the indirect block itself untouched. */
  lemma IndirectStartFirst(st: WriteState, totalInodes: int32, pl: Plan)
    requires Sane(st) && pl.first >= DIRECT_SIZE && ShortFits((pl.first - DIRECT_SIZE) * 2)
    requires OnDisk(st.alloc.blocks, st.indirect)
    requires GetShort(st.alloc.blocks[st.indirect], (pl.first - DIRECT_SIZE) * 2) == 0
    requires 0 < st.alloc.freeList < |st.alloc.blocks| && st.alloc.freeList < TWO_15 && st.alloc.freeList != st.indirect
    ensures var f := WriteFirst(st, totalInodes, pl);
      f.Go? && f.ptr as int == st.alloc.freeList && f.st.indirect == st.indirect && f.st.direct == st.direct
      && f.st.alloc.blocks[st.indirect] == st.alloc.blocks[st.indirect]
  {
    var idx := (pl.first - DIRECT_SIZE) * 2;
    assert Short(idx) == idx;
    var h := Allocate(st.alloc, totalInodes);
    assert h.block as int == st.alloc.freeList;
    assert h.after.blocks[st.indirect] == st.alloc.blocks[st.indirect];
  }

  /**
   * write with the seek pointer at MAX_FILE_SIZE: writeSize is 0 and
   * blockNum is 267, one past the 256 slots of the pointer table, so the
   * entry is read past the end of the indirect block and write throws
   * instead of answering 0.
   */
  lemma WriteAtMaxThrows(st: WriteState, totalInodes: int32, buf: seq<byte>)
    requires Sane(st) && st.seekPtr == MAX_FILE_SIZE && |buf| < TWO_31 - MAX_FILE_SIZE
    requires OnDisk(st.alloc.blocks, st.indirect)
    ensures WriteBody(st, totalInodes, buf).answer == Threw
  {
    var pl := WritePlan(st.seekPtr, |buf|);
    assert pl.size == 0 && pl.first == DIRECT_SIZE + INDIRECT_SLOTS && pl.count == 1;
    assert Short((pl.first - DIRECT_SIZE) * 2) == BLOCK_SIZE;
  }

  /**
   * write that ends exactly at a block boundary: blockCount counts one block
   * more than the transfer touches, so the loop visits the next logical
   * block with a chunk of 0 bytes. When that block has no direct pointer,
   * getNextFreeBlock hands one out and the inode keeps it although not a
   * byte of the buffer is in it: it stays zero.
   */
  lemma BoundaryAllocates(st: WriteState, totalInodes: int32, buf: seq<byte>)
    requires Sane(st) && 0 <= st.seekPtr && st.seekPtr / BLOCK_SIZE + 2 < DIRECT_SIZE
    requires 0 < |buf| && st.seekPtr % BLOCK_SIZE + |buf| == BLOCK_SIZE
    requires OnDisk(st.alloc.blocks, st.direct[st.seekPtr / BLOCK_SIZE])
    requires st.direct[st.seekPtr / BLOCK_SIZE + 1] == -1
    requires 0 < st.alloc.freeList < |st.alloc.blocks| && st.alloc.freeList < TWO_15
    ensures var e := WriteBody(st, totalInodes, buf);
      var n := st.seekPtr / BLOCK_SIZE + 1;
      e.answer == Returned(|buf|) && e.st.direct[n] == st.alloc.freeList
      && |e.st.alloc.blocks| == |st.alloc.blocks| && e.st.alloc.blocks[st.alloc.freeList] == Zeros(BLOCK_SIZE)
  {
    var p := st.seekPtr;
    WritePlanSize(p, |buf|);
    var pl := WritePlan(p, |buf|);
    PlanArithmetic(p, pl.size);
    BoundaryHead(st, totalInodes, pl, buf);
    var f := WriteHead(st, totalInodes, pl, buf);
    assert Chunk(pl.size, BLOCK_SIZE - pl.offset) == 0;
    BoundaryRest(f, totalInodes, pl, buf);
  }

  /** What follows a first copy that filled its block to the end: one pass of 0 bytes over the next block, which has no pointer. */
  lemma BoundaryRest(f: Step, totalInodes: int32, pl: Plan, buf: seq<byte>)
    requires Fine(f) && f.Go? && f.ind.None?
    requires 0 <= pl.first && 0 <= pl.offset <= BLOCK_SIZE && pl.count != 1 && pl.last == pl.first + 1 < DIRECT_SIZE
    requires Chunk(pl.size, BLOCK_SIZE - pl.offset) == 0 && BLOCK_SIZE - pl.offset <= |buf|
    requires f.st.direct[pl.last] == -1 && 0 < f.st.alloc.freeList < |f.st.alloc.blocks| && f.st.alloc.freeList < TWO_15
    ensures var e := WriteRest(f, totalInodes, pl, buf);
      e.answer == Returned(pl.size as int) && e.st.direct[pl.last] == f.st.alloc.freeList
      && |e.st.alloc.blocks| == |f.st.alloc.blocks| && e.st.alloc.blocks[f.st.alloc.freeList] == Zeros(BLOCK_SIZE)
  {
    var bo := BLOCK_SIZE - pl.offset;
    BoundaryStep(f.st, totalInodes, pl.last, bo, buf);
    var w := WriteStep(f.st, totalInodes, None, pl.last, 0, bo, buf);
    assert WriteRest(f, totalInodes, pl, buf) == WriteLoop(f.st, totalInodes, None, pl.last, pl.last, pl.size, bo, buf);
    assert WriteLoop(f.st, totalInodes, None, pl.last, pl.last, pl.size, bo, buf) == WriteOn(w, totalInodes, pl.last, pl.last, pl.size, bo, buf);
    assert WriteOn(w, totalInodes, pl.last, pl.last, pl.size, bo, buf) == WriteEnd(Returned(pl.size), w.st);
  }

  /** write's first copy into a block in place, short of the indirect block: nothing is allocated. */
  lemma BoundaryHead(st: WriteState, totalInodes: int32, pl: Plan, buf: seq<byte>)
    requires Sane(st) && 0 <= pl.first && 1 <= pl.count && pl.first + pl.count < DIRECT_SIZE && 0 <= pl.offset
    requires OnDisk(st.alloc.blocks, st.direct[pl.first])
    requires CopyFits(|buf|, 0, BLOCK_SIZE, pl.offset, if pl.count == 1 then pl.size else BLOCK_SIZE - pl.offset)
    ensures var f := WriteHead(st, totalInodes, pl, buf);
      f.Go? && f.ind.None? && f.st.direct == st.direct && f.st.alloc.freeList == st.alloc.freeList
      && |f.st.alloc.blocks| == |st.alloc.blocks|
  {
    assert st.direct[pl.first := st.direct[pl.first]] == st.direct;
  }

  /** A pass of write's loop over a logical block with no direct pointer and 0 bytes to copy: the head of the free list joins the inode, zeroed. */
  lemma BoundaryStep(st: WriteState, totalInodes: int32, n: int, bo: int32, buf: seq<byte>)
    requires Sane(st) && 0 <= n < DIRECT_SIZE && st.direct[n] == -1 && 0 <= bo <= |buf|
    requires 0 < st.alloc.freeList < |st.alloc.blocks| && st.alloc.freeList < TWO_15
    ensures var w := WriteStep(st, totalInodes, None, n, 0, bo, buf);
      w.Go? && w.ind.None? && w.st.direct[n] == st.alloc.freeList
      && |w.st.alloc.blocks| == |st.alloc.blocks| && w.st.alloc.blocks[st.alloc.freeList] == Zeros(BLOCK_SIZE)
  {
    var g := Allocate(st.alloc, totalInodes);
    assert g.block as int == st.alloc.freeList;
    assert g.after.blocks[g.block] == Zeros(BLOCK_SIZE);
    assert Copy(Zeros(BLOCK_SIZE), 0, buf, bo, 0) == Zeros(BLOCK_SIZE);
  }
}

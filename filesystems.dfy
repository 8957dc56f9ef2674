/**
 * The FileSystem facade: the descriptor table of the calling thread, the
 * seek pointer, and read and write as the loops FileSystem.java runs over
 * the device, each proved to compute what the functions of FileData say.
 */
module FileSystems {
  import opened JavaInts
  import opened Options
  import opened Codec
  import opened Device
  import opened Inodes
  import opened SuperBlocks
  import opened Directories
  import opened FileTables
  import opened FileData

  // ---------------------------------------------------------------------------
  // Buffers

  /** System.arraycopy between two distinct byte arrays. */
  method ArrayCopy(src: array<byte>, srcPos: int, dest: array<byte>, destPos: int, len: int)
    requires src != dest && CopyFits(src.Length, srcPos, dest.Length, destPos, len)
    modifies dest
    ensures dest[..] == Copy(old(dest[..]), destPos, src[..], srcPos, len)
  {
    forall k | destPos <= k < destPos + len {
      dest[k] := src[srcPos + k - destPos];
    }
    assert dest[destPos..destPos + len] == src[srcPos..srcPos + len];
    assert dest[..] == old(dest[..])[..destPos] + src[srcPos..srcPos + len] + old(dest[..])[destPos + len..];
  }

  /** A byte array that may be null, as a value. */
  function Contents(a: array?<byte>): (r: Option<seq<byte>>)
    reads a
    ensures r.Some? <==> a != null
  {
    if a == null then None else Some(a[..])
  }

  // ---------------------------------------------------------------------------
  // write

  /** What write works on: the allocator and device, the inode's pointers and length, the entry's seek pointer. */
  ghost function StateOf(sb: SuperBlock, entry: FileTableEntry): WriteState
    reads sb, sb.disk, entry, entry.inode, entry.inode.direct
  {
    WriteState(sb.State(), entry.inode.direct[..], entry.inode.indirect, entry.inode.length, entry.seekPtr)
  }

  /** The superblock is whole, and the inode's lock and count are as they were. */
  twostate predicate Settled(sb: SuperBlock, inode: Inode)
    reads sb, sb.disk, inode
  {
    sb.Valid() && sb.totalBlocks == old(sb.totalBlocks) && sb.totalInodes == old(sb.totalInodes)
    && inode.LockState() == old(inode.LockState()) && inode.count == old(inode.count)
  }

  /** An imperative stage of write agrees with a stage of the model: same end, or same state, table and block. */
  ghost predicate Agrees(w: Step, stop: Option<Outcome<int>>, st: WriteState, ind: Option<seq<byte>>, b: short)
  {
    match w
    case Stop(e) => stop == Some(e.answer) && st == e.st
    case Go(st', ind', b') => stop.None? && st == st' && ind == ind' && b == b'
  }

  /** `if (p == -1) p = superBlock.getNextFreeBlock();` */
  method FillHole(sb: SuperBlock, ptr: short) returns (b: short)
    requires sb.Valid()
    modifies sb, sb.disk
    ensures sb.Valid() && sb.totalBlocks == old(sb.totalBlocks) && sb.totalInodes == old(sb.totalInodes)
    ensures Fill(old(sb.State()), sb.totalInodes, ptr, -1) == Grant(b, sb.State())
  {
    b := ptr;
    if b == -1 {
      b := sb.GetNextFreeBlock();
    }
  }

  /**
   * write up to its first copy: the pointer table and the first block's
   * pointer (allocating where write allocates), and the first block read
   * into blockData.
   */
  method StartWrite(sb: SuperBlock, entry: FileTableEntry, pl: Plan, blockData: array<byte>)
    returns (stop: Option<Outcome<int>>, ind: array?<byte>, b: short)
    requires sb.Valid() && entry.inode.Valid() && blockData.Length == BLOCK_SIZE
    modifies sb, sb.disk, entry.inode, entry.inode.direct, blockData
    ensures Settled(sb, entry.inode) && entry.seekPtr == old(entry.seekPtr) && entry.inode.length == old(entry.inode.length)
    ensures ind != null ==> fresh(ind) && ind.Length == BLOCK_SIZE
    ensures Agrees(WriteFirst(old(StateOf(sb, entry)), sb.totalInodes, pl), stop, StateOf(sb, entry), Contents(ind), b)
    ensures stop.None? ==> OnDisk(sb.disk.blocks, b) && blockData[..] == sb.disk.blocks[b]
  {
    if pl.first >= DIRECT_SIZE {
      stop, ind, b := StartIndirect(sb, entry, pl, blockData);
    } else {
      stop, ind, b := StartDirect(sb, entry, pl, blockData);
    }
  }

  /** write's start past the direct pointers: the indirect block, allocated if missing, then its entry. */
  method StartIndirect(sb: SuperBlock, entry: FileTableEntry, pl: Plan, blockData: array<byte>)
    returns (stop: Option<Outcome<int>>, ind: array?<byte>, b: short)
    requires sb.Valid() && entry.inode.Valid() && blockData.Length == BLOCK_SIZE && pl.first >= DIRECT_SIZE
    modifies sb, sb.disk, entry.inode, blockData
    ensures Settled(sb, entry.inode) && entry.inode.length == old(entry.inode.length)
    ensures ind != null ==> fresh(ind) && ind.Length == BLOCK_SIZE
    ensures Agrees(WriteFirst(old(StateOf(sb, entry)), sb.totalInodes, pl), stop, StateOf(sb, entry), Contents(ind), b)
    ensures stop.None? ==> OnDisk(sb.disk.blocks, b) && blockData[..] == sb.disk.blocks[b]
  {
    ghost var st := StateOf(sb, entry);
    entry.inode.indirect := FillHole(sb, entry.inode.indirect);
    if entry.inode.indirect == -1 {
      return Some(Returned(-1)), null, 0;
    }
    IndirectFilled(st, sb.totalInodes, pl);
    stop, ind, b := FromTable(sb, entry, pl, blockData, StateOf(sb, entry));
  }

  /** Once write has an indirect block, starting over finds it there and allocates nothing more for it. */
  lemma IndirectFilled(st: WriteState, totalInodes: int32, pl: Plan)
    requires Sane(st) && pl.first >= DIRECT_SIZE && Fill(st.alloc, totalInodes, st.indirect, -1).block != -1
    ensures var g := Fill(st.alloc, totalInodes, st.indirect, -1);
      var st' := st.(alloc := g.after, indirect := g.block);
      Sane(st') && WriteFirst(st, totalInodes, pl) == WriteFirst(st', totalInodes, pl)
  {
  }

  /** With an indirect block already present, write's start reads its entry: -1, an exception, or that block when the entry is set. */
  lemma TableStart(st: WriteState, totalInodes: int32, pl: Plan)
    requires Sane(st) && pl.first >= DIRECT_SIZE && st.indirect != -1
    ensures var w := WriteFirst(st, totalInodes, pl);
      var idx := Short((pl.first - DIRECT_SIZE) * 2);
      if !OnDisk(st.alloc.blocks, st.indirect) then w == Stop(WriteEnd(Returned(-1), st))
      else if !ShortFits(idx) then w == Stop(WriteEnd(Threw, st))
      else
        var table := st.alloc.blocks[st.indirect];
        var b := GetShort(table, idx);
        b != 0 ==> w == (if OnDisk(st.alloc.blocks, b) then Go(st, Some(table), b) else Stop(WriteEnd(Returned(-1), st)))
  {
    assert Fill(st.alloc, totalInodes, st.indirect, -1) == Grant(st.indirect, st.alloc);
    assert st.(alloc := st.alloc, indirect := st.indirect) == st;
  }

  /** write's start past the direct pointers with an indirect block: its entry, filled if 0, and that block read. */
  method FromTable(sb: SuperBlock, entry: FileTableEntry, pl: Plan, blockData: array<byte>, ghost st: WriteState)
    returns (stop: Option<Outcome<int>>, ind: array?<byte>, b: short)
    requires sb.Valid() && entry.inode.Valid() && blockData.Length == BLOCK_SIZE && pl.first >= DIRECT_SIZE
    requires entry.inode.indirect != -1 && st == StateOf(sb, entry)
    modifies sb, sb.disk, blockData
    ensures Settled(sb, entry.inode)
    ensures ind != null ==> fresh(ind) && ind.Length == BLOCK_SIZE
    ensures Agrees(WriteFirst(st, sb.totalInodes, pl), stop, StateOf(sb, entry), Contents(ind), b)
    ensures stop.None? ==> OnDisk(sb.disk.blocks, b) && blockData[..] == sb.disk.blocks[b]
  {
    TableStart(st, sb.totalInodes, pl);
    var table := new byte[BLOCK_SIZE](_ => 0);
    var status := sb.disk.ReadInto(entry.inode.indirect, table);
    if status != 0 {
      return Some(Returned(-1)), null, 0;
    }
    var idx := Short((pl.first - DIRECT_SIZE) * 2);
    if !ShortFits(idx) {
      return Some(Threw), null, 0;
    }
    b := GetShort(table[..], idx);
    if b == 0 {
      stop, b := FillEntry(sb, entry, pl, table, idx);
      if stop.Some? {
        return stop, null, 0;
      }
    }
    status := sb.disk.ReadInto(b, blockData);
    if status != 0 {
      return Some(Returned(-1)), null, 0;
    }
    return None, table, b;
  }

  /** A 0 entry of the pointer table: a block from getNextFreeBlock, set in the table, and the table written to that block. */
  method FillEntry(sb: SuperBlock, entry: FileTableEntry, pl: Plan, table: array<byte>, idx: short)
    returns (stop: Option<Outcome<int>>, b: short)
    requires sb.Valid() && entry.inode.Valid() && pl.first >= DIRECT_SIZE && OnDisk(sb.disk.blocks, entry.inode.indirect)
    requires idx == Short((pl.first - DIRECT_SIZE) * 2) && ShortFits(idx)
    requires table.Length == BLOCK_SIZE && table[..] == sb.disk.blocks[entry.inode.indirect] && GetShort(table[..], idx) == 0
    modifies sb, sb.disk, table
    ensures Settled(sb, entry.inode)
    ensures var w := WriteFirst(old(StateOf(sb, entry)), sb.totalInodes, pl);
      (stop.Some? ==> Agrees(w, stop, StateOf(sb, entry), None, 0))
      && (stop.None? ==>
            w.Go? && w.st == StateOf(sb, entry) && w.ind == Some(table[..]) && w.ptr == b
            && OnDisk(sb.disk.blocks, b) && sb.disk.blocks[b] == table[..])
  {
    b := sb.GetNextFreeBlock();
    if b == -1 {
      return Some(Returned(-1)), -1;
    }
    WriteShort(table, idx, b);
    var status := sb.disk.Write(b, table[..]);
    if status != 0 {
      return Some(Returned(-1)), b;
    }
    return None, b;
  }

  /** write's start within the direct pointers: the indirect block when the transfer reaches it, the direct pointer filled if missing. */
  method StartDirect(sb: SuperBlock, entry: FileTableEntry, pl: Plan, blockData: array<byte>)
    returns (stop: Option<Outcome<int>>, ind: array?<byte>, b: short)
    requires sb.Valid() && entry.inode.Valid() && blockData.Length == BLOCK_SIZE && pl.first < DIRECT_SIZE
    modifies sb, sb.disk, entry.inode, entry.inode.direct, blockData
    ensures Settled(sb, entry.inode) && entry.inode.length == old(entry.inode.length)
    ensures ind != null ==> fresh(ind) && ind.Length == BLOCK_SIZE
    ensures Agrees(WriteFirst(old(StateOf(sb, entry)), sb.totalInodes, pl), stop, StateOf(sb, entry), Contents(ind), b)
    ensures stop.None? ==> OnDisk(sb.disk.blocks, b) && blockData[..] == sb.disk.blocks[b]
  {
    var inode := entry.inode;
    stop, ind := LoadIndirect(sb, entry, pl.first + pl.count >= DIRECT_SIZE);
    if stop.Some? {
      return stop, null, 0;
    }
    if pl.first < 0 {
      return Some(Threw), null, 0;
    }
    b := FillHole(sb, inode.direct[pl.first]);
    inode.direct[pl.first] := b;
    if b == -1 {
      return Some(Returned(-1)), null, 0;
    }
    var status := sb.disk.ReadInto(b, blockData);
    if status != 0 {
      return Some(Returned(-1)), null, 0;
    }
    return None, ind, b;
  }

  /** The indirect block of a write from a direct pointer that reaches it (`loads`): filled if missing, then read. */
  method LoadIndirect(sb: SuperBlock, entry: FileTableEntry, loads: bool) returns (stop: Option<Outcome<int>>, ind: array?<byte>)
    requires sb.Valid() && entry.inode.Valid()
    modifies sb, sb.disk, entry.inode
    ensures Settled(sb, entry.inode) && entry.inode.length == old(entry.inode.length)
    ensures ind != null ==> fresh(ind) && ind.Length == BLOCK_SIZE
    ensures var st := old(StateOf(sb, entry));
      var g := if loads then Fill(st.alloc, sb.totalInodes, st.indirect, -1) else Grant(st.indirect, st.alloc);
      StateOf(sb, entry) == st.(alloc := g.after, indirect := g.block)
      && (stop.Some? <==> loads && (g.block == -1 || !OnDisk(g.after.blocks, g.block)))
      && (stop.Some? ==> stop == Some(Returned(-1)))
      && (stop.None? ==> Contents(ind) == if loads then Some(g.after.blocks[g.block]) else None)
  {
    ind := null;
    stop := None;
    if loads {
      entry.inode.indirect := FillHole(sb, entry.inode.indirect);
      if entry.inode.indirect == -1 {
        return Some(Returned(-1)), null;
      }
      ind := new byte[BLOCK_SIZE](_ => 0);
      var status := sb.disk.ReadInto(entry.inode.indirect, ind);
      if status != 0 {
        return Some(Returned(-1)), null;
      }
    }
  }

  /** The pointer write's loop uses for logical block n: a 0 entry of the table or a -1 direct pointer is filled. */
  method NextPointer(sb: SuperBlock, entry: FileTableEntry, ind: array?<byte>, n: int) returns (stop: Option<Outcome<int>>, b: short)
    requires sb.Valid() && entry.inode.Valid() && 0 <= n && (ind != null ==> ind.Length == BLOCK_SIZE)
    modifies sb, sb.disk, entry.inode.direct, ind
    ensures Settled(sb, entry.inode)
    ensures Agrees(WritePointer(old(StateOf(sb, entry)), sb.totalInodes, old(Contents(ind)), n), stop, StateOf(sb, entry), Contents(ind), b)
  {
    if n >= DIRECT_SIZE {
      stop, b := NextFromTable(sb, entry, ind, n);
    } else {
      stop, b := NextDirect(sb, entry, n);
    }
  }

  /** The pointer for logical block n >= 11: its table entry, filled if 0 and the table written back to the indirect block. */
  method NextFromTable(sb: SuperBlock, entry: FileTableEntry, ind: array?<byte>, n: int) returns (stop: Option<Outcome<int>>, b: short)
    requires sb.Valid() && entry.inode.Valid() && DIRECT_SIZE <= n && (ind != null ==> ind.Length == BLOCK_SIZE)
    modifies sb, sb.disk, ind
    ensures Settled(sb, entry.inode)
    ensures Agrees(WritePointer(old(StateOf(sb, entry)), sb.totalInodes, old(Contents(ind)), n), stop, StateOf(sb, entry), Contents(ind), b)
  {
    var idx := Short((n - DIRECT_SIZE) * 2);
    if ind == null || !ShortFits(idx) {
      return Some(Threw), 0;
    }
    b := GetShort(ind[..], idx);
    if b == 0 {
      b := sb.GetNextFreeBlock();
      if b == -1 {
        return Some(Returned(-1)), b;
      }
      WriteShort(ind, idx, b);
      var status := sb.disk.Write(entry.inode.indirect, ind[..]);
      if status != 0 {
        return Some(Returned(-1)), b;
      }
    }
    return None, b;
  }

  /** The pointer for logical block n < 11: the direct pointer, filled if -1. */
  method NextDirect(sb: SuperBlock, entry: FileTableEntry, n: int) returns (stop: Option<Outcome<int>>, b: short)
    requires sb.Valid() && entry.inode.Valid() && 0 <= n < DIRECT_SIZE
    modifies sb, sb.disk, entry.inode.direct
    ensures Settled(sb, entry.inode)
    ensures Agrees(WritePointer(old(StateOf(sb, entry)), sb.totalInodes, None, n), stop, StateOf(sb, entry), None, b)
  {
    ghost var direct := entry.inode.direct[..];
    b := entry.inode.direct[n];
    if b == -1 {
      b := sb.GetNextFreeBlock();
      if b == -1 {
        assert direct[n := b] == direct;
        return Some(Returned(-1)), b;
      }
      entry.inode.direct[n] := b;
    } else {
      assert direct[n := b] == direct;
    }
    return None, b;
  }

  /**
   * The copy both write's first block and its loop end with: `len` bytes of
   * the buffer from srcPos into blockData at destPos, the block written back
   * to block b, the seek pointer and the length advanced by len.
   */
  method CopyBack(sb: SuperBlock, entry: FileTableEntry, b: short, buffer: array<byte>, srcPos: int,
                  blockData: array<byte>, destPos: int, len: int, ghost st: WriteState, ghost data: seq<byte>, ghost buf: seq<byte>)
    requires sb.Valid() && entry.inode.Valid() && blockData.Length == BLOCK_SIZE && buffer != blockData
    requires CopyFits(buffer.Length, srcPos, BLOCK_SIZE, destPos, len)
    requires st == StateOf(sb, entry) && data == blockData[..] && buf == buffer[..]
    modifies sb.disk, entry, entry.inode, blockData
    ensures Settled(sb, entry.inode) && entry.count == old(entry.count)
    ensures StateOf(sb, entry) == Advance(st, b, Copy(data, destPos, buf, srcPos, len), len as int32)
  {
    ArrayCopy(buffer, srcPos, blockData, destPos, len);
    var _ := sb.disk.Write(b, blockData[..]);
    entry.seekPtr := Int32(entry.seekPtr as int + len);
    entry.inode.length := Int32(entry.inode.length as int + len);
  }

  /**
   * One pass of write's loop: the pointer for block n, the block read into
   * blockData, `chunk` bytes of the buffer from bo copied to its start and
   * written back, the seek pointer and the length advanced. (The write-back
   * cannot fail once the read of the same block succeeded.)
   */
  method WriteNext(sb: SuperBlock, entry: FileTableEntry, ind: array?<byte>, n: int, chunk: int32, bo: int32,
                   buffer: array<byte>, blockData: array<byte>, ghost buf: seq<byte>, ghost st: WriteState, ghost tables: Option<seq<byte>>)
    returns (stop: Option<Outcome<int>>)
    requires sb.Valid() && entry.inode.Valid() && 0 <= n && (ind != null ==> ind.Length == BLOCK_SIZE)
    requires blockData.Length == BLOCK_SIZE && buffer != blockData && ind != blockData && ind != buffer
    requires buf == buffer[..] && st == StateOf(sb, entry) && tables == Contents(ind)
    modifies sb, sb.disk, entry, entry.inode, entry.inode.direct, ind, blockData
    ensures Settled(sb, entry.inode) && entry.count == old(entry.count)
    ensures var w := WriteStep(st, sb.totalInodes, tables, n, chunk, bo, buf);
      (w.Stop? <==> stop.Some?) && (w.Stop? ==> stop == Some(w.end.answer) && StateOf(sb, entry) == w.end.st)
      && (w.Go? ==> StateOf(sb, entry) == w.st && Contents(ind) == w.ind)
  {
    var b;
    stop, b := NextPointer(sb, entry, ind, n);
    if stop.Some? {
      return;
    }
    var status := sb.disk.ReadInto(b, blockData);
    if status != 0 {
      return Some(Returned(-1));
    }
    if !CopyFits(buffer.Length, bo, BLOCK_SIZE, 0, chunk) {
      return Some(Threw);
    }
    CopyBack(sb, entry, b, buffer, bo, blockData, 0, chunk as int, StateOf(sb, entry), blockData[..], buffer[..]);
  }

  /** write's first block and first copy: `head` bytes of the buffer at blockOffset, written back. */
  method WriteFirstBlock(sb: SuperBlock, entry: FileTableEntry, pl: Plan, buffer: array<byte>, blockData: array<byte>,
                         ghost st: WriteState, ghost buf: seq<byte>)
    returns (stop: Option<Outcome<int>>, ind: array?<byte>, b: short)
    requires sb.Valid() && entry.inode.Valid() && blockData.Length == BLOCK_SIZE && buffer != blockData
    requires st == StateOf(sb, entry) && buf == buffer[..]
    modifies sb, sb.disk, entry, entry.inode, entry.inode.direct, blockData
    ensures Settled(sb, entry.inode) && entry.count == old(entry.count)
    ensures ind != null ==> fresh(ind) && ind.Length == BLOCK_SIZE
    ensures Agrees(WriteHead(st, sb.totalInodes, pl, buf), stop, StateOf(sb, entry), Contents(ind), b)
  {
    stop, ind, b := StartWrite(sb, entry, pl, blockData);
    if stop.Some? {
      return;
    }
    ghost var st1 := StateOf(sb, entry);
    HeadAfterFirst(st, sb.totalInodes, pl, buf, st1, Contents(ind), b);
    var head := if pl.count == 1 then pl.size as int else BLOCK_SIZE - pl.offset;
    if !CopyFits(buffer.Length, 0, BLOCK_SIZE, pl.offset, head) {
      return Some(Threw), ind, b;
    }
    CopyBack(sb, entry, b, buffer, 0, blockData, pl.offset, head, st1, blockData[..], buf);
  }

  /** Once write's first block is settled, its first copy either throws or advances by `head` bytes. */
  lemma HeadAfterFirst(st: WriteState, totalInodes: int32, pl: Plan, buf: seq<byte>, st1: WriteState, ind: Option<seq<byte>>, b: short)
    requires Sane(st) && WriteFirst(st, totalInodes, pl) == Go(st1, ind, b)
    ensures var head := if pl.count == 1 then pl.size else BLOCK_SIZE - pl.offset;
            WriteHead(st, totalInodes, pl, buf) ==
              if !CopyFits(|buf|, 0, BLOCK_SIZE, pl.offset, head) then Stop(WriteEnd(Threw, st1))
              else Go(Advance(st1, b, Copy(st1.alloc.blocks[b], pl.offset, buf, 0, head), head), ind, b)
  {
  }

  /** A pass of write's loop that stops ends the loop; one that goes on leaves the loop from the next block. */
  lemma LoopPass(st: WriteState, totalInodes: int32, ind: Option<seq<byte>>, n: int, last: int, size: int32, bo: int32,
                 buf: seq<byte>, w: Step)
    requires Sane(st) && 0 <= n <= last && (ind.Some? ==> |ind.value| == BLOCK_SIZE)
    requires w == WriteStep(st, totalInodes, ind, n, Chunk(size, bo), bo, buf)
    ensures w.Stop? ==> WriteLoop(st, totalInodes, ind, n, last, size, bo, buf) == w.end
    ensures w.Go? ==>
      WriteLoop(st, totalInodes, ind, n, last, size, bo, buf) == WriteLoop(w.st, totalInodes, w.ind, n + 1, last, size, Int32(bo as int + Chunk(size, bo) as int), buf)
  {
  }

  /** One pass of write's loop, stated as the loop it leaves behind: its end, or the loop from block n + 1 with the buffer at bo'. */
  method WritePass(sb: SuperBlock, entry: FileTableEntry, ind: array?<byte>, n: int, last: int, size: int32, bo: int32,
                   buffer: array<byte>, blockData: array<byte>, ghost buf: seq<byte>, ghost st: WriteState, ghost tables: Option<seq<byte>>)
    returns (stop: Option<Outcome<int>>, bo': int32, ghost st': WriteState, ghost tables': Option<seq<byte>>)
    requires sb.Valid() && entry.inode.Valid() && 0 <= n <= last && (ind != null ==> ind.Length == BLOCK_SIZE)
    requires blockData.Length == BLOCK_SIZE && buffer != blockData && ind != blockData && ind != buffer && buffer[..] == buf
    requires st == StateOf(sb, entry) && tables == Contents(ind)
    modifies sb, sb.disk, entry, entry.inode, entry.inode.direct, ind, blockData
    ensures Settled(sb, entry.inode) && entry.count == old(entry.count) && buffer[..] == buf
    ensures st' == StateOf(sb, entry) && tables' == Contents(ind)
    ensures var e := WriteLoop(st, sb.totalInodes, tables, n, last, size, bo, buf);
      (stop.Some? ==> stop.value == e.answer && st' == e.st)
      && (stop.None? ==> WriteLoop(st', sb.totalInodes, tables', n + 1, last, size, bo', buf) == e)
  {
    var chunk := Chunk(size, bo);
    ghost var w := WriteStep(st, sb.totalInodes, tables, n, chunk, bo, buf);
    LoopPass(st, sb.totalInodes, tables, n, last, size, bo, buf, w);
    stop := WriteNext(sb, entry, ind, n, chunk, bo, buffer, blockData, buf, st, tables);
    bo' := Int32(bo as int + chunk as int);
    st', tables' := StateOf(sb, entry), Contents(ind);
  }

  /** write's loop over blocks n..last, the buffer at bo. */
  method WriteBlocks(sb: SuperBlock, entry: FileTableEntry, ind: array?<byte>, n: int, last: int, size: int32, bo: int32,
                     buffer: array<byte>, blockData: array<byte>)
    returns (answer: Outcome<int>)
    requires sb.Valid() && entry.inode.Valid() && 0 <= n && (ind != null ==> ind.Length == BLOCK_SIZE)
    requires blockData.Length == BLOCK_SIZE && buffer != blockData && ind != blockData && ind != buffer
    modifies sb, sb.disk, entry, entry.inode, entry.inode.direct, ind, blockData
    ensures Settled(sb, entry.inode) && entry.count == old(entry.count)
    ensures var e := WriteLoop(old(StateOf(sb, entry)), sb.totalInodes, old(Contents(ind)), n, last, size, bo, buffer[..]);
      answer == e.answer && StateOf(sb, entry) == e.st
  {
    ghost var buf := buffer[..];
    ghost var target := WriteLoop(StateOf(sb, entry), sb.totalInodes, Contents(ind), n, last, size, bo, buf);
    ghost var lock := entry.inode.LockState();
    var k := n;
    var at := bo;
    while k <= last
      invariant sb.Valid() && sb.totalBlocks == old(sb.totalBlocks) && sb.totalInodes == old(sb.totalInodes)
      invariant entry.inode.LockState() == lock && entry.inode.count == old(entry.inode.count) && entry.count == old(entry.count)
      invariant 0 <= k && buffer[..] == buf
      invariant WriteLoop(StateOf(sb, entry), sb.totalInodes, Contents(ind), k, last, size, at, buf) == target
      decreases last - k
    {
      var stop;
      ghost var st', tables';
      stop, at, st', tables' := WritePass(sb, entry, ind, k, last, size, at, buffer, blockData, buf, StateOf(sb, entry), Contents(ind));
      if stop.Some? {
        return stop.value;
      }
      k := k + 1;
    }
    return Returned(size);
  }

  /**
   * write after its argument checks and waitWrite: the plan, the first
   * block, then the loop over the remaining blocks. It answers what
   * WriteBody answers and leaves the state WriteBody leaves.
   */
  method WriteTransfer(sb: SuperBlock, entry: FileTableEntry, buffer: array<byte>) returns (answer: Outcome<int>)
    requires sb.Valid() && entry.inode.Valid() && buffer.Length < TWO_31
    modifies sb, sb.disk, entry, entry.inode, entry.inode.direct
    ensures Settled(sb, entry.inode) && entry.count == old(entry.count)
    ensures var e := WriteBody(old(StateOf(sb, entry)), sb.totalInodes, buffer[..]);
      answer == e.answer && StateOf(sb, entry) == e.st
  {
    var pl := WritePlan(entry.seekPtr, buffer.Length);
    ghost var f := WriteHead(StateOf(sb, entry), sb.totalInodes, pl, buffer[..]);
    var blockData := new byte[BLOCK_SIZE](_ => 0);
    var stop, ind, b := WriteFirstBlock(sb, entry, pl, buffer, blockData, StateOf(sb, entry), buffer[..]);
    if stop.Some? {
      answer := stop.value;
    } else {
      answer := WriteOnward(sb, entry, pl, ind, buffer, blockData, f);
    }
  }

  /** write after a first copy `f` that went through: done when it was the only block, else the loop from the next one. */
  method WriteOnward(sb: SuperBlock, entry: FileTableEntry, pl: Plan, ind: array?<byte>, buffer: array<byte>, blockData: array<byte>,
                     ghost f: Step)
    returns (answer: Outcome<int>)
    requires sb.Valid() && entry.inode.Valid() && (ind != null ==> ind.Length == BLOCK_SIZE)
    requires blockData.Length == BLOCK_SIZE && buffer != blockData && ind != blockData && ind != buffer
    requires Fine(f) && f.Go? && 0 <= pl.first && 0 <= pl.offset <= BLOCK_SIZE
    requires f.st == StateOf(sb, entry) && f.ind == Contents(ind)
    modifies sb, sb.disk, entry, entry.inode, entry.inode.direct, ind, blockData
    ensures Settled(sb, entry.inode) && entry.count == old(entry.count)
    ensures var e := WriteRest(f, sb.totalInodes, pl, buffer[..]);
      answer == e.answer && StateOf(sb, entry) == e.st
  {
    if pl.count == 1 {
      answer := Returned(pl.size);
    } else {
      answer := WriteBlocks(sb, entry, ind, pl.first + 1, pl.last, pl.size, BLOCK_SIZE - pl.offset, buffer, blockData);
    }
  }

  // ---------------------------------------------------------------------------
  // read

  /** read's first block through the indirect block: the pointer table, then the block its entry names. */
  method StartReadIndirect(disk: Disk, inode: Inode, pl: Plan, blockData: array<byte>)
    returns (stop: Option<Outcome<int>>, ind: array?<byte>)
    requires disk.Valid() && inode.Valid() && blockData.Length == BLOCK_SIZE && pl.first >= DIRECT_SIZE
    modifies blockData
    ensures ind != null ==> fresh(ind) && ind.Length == BLOCK_SIZE
    ensures var o := ReadFirst(disk.blocks, inode.direct[..], inode.indirect as int, pl);
      (o.Failed? <==> stop == Some(Returned(-1))) && (o.Thrown? <==> stop == Some(Threw))
      && (o.Opened? ==> stop.None? && blockData[..] == o.data && Contents(ind) == o.ind)
  {
    ind := new byte[BLOCK_SIZE](_ => 0);
    var status := disk.ReadInto(inode.indirect as int, ind);
    if status != 0 {
      return Some(Returned(-1)), ind;
    }
    var slot := (pl.first - DIRECT_SIZE) * 2;
    if !ShortFits(slot) {
      return Some(Threw), ind;
    }
    var ptr := GetShort(ind[..], slot);
    status := disk.ReadInto(ptr as int, blockData);
    if status != 0 {
      return Some(Returned(-1)), ind;
    }
    stop := None;
  }

  /** read's first block from a direct pointer, the indirect block loaded first when the transfer will reach it. */
  method StartReadDirect(disk: Disk, inode: Inode, pl: Plan, blockData: array<byte>)
    returns (stop: Option<Outcome<int>>, ind: array?<byte>)
    requires disk.Valid() && inode.Valid() && blockData.Length == BLOCK_SIZE && pl.first < DIRECT_SIZE
    modifies blockData
    ensures ind != null ==> fresh(ind) && ind.Length == BLOCK_SIZE
    ensures var o := ReadFirst(disk.blocks, inode.direct[..], inode.indirect as int, pl);
      (o.Failed? <==> stop == Some(Returned(-1))) && (o.Thrown? <==> stop == Some(Threw))
      && (o.Opened? ==> stop.None? && blockData[..] == o.data && Contents(ind) == o.ind)
  {
    ind := null;
    if pl.first + pl.count >= DIRECT_SIZE {
      ind := new byte[BLOCK_SIZE](_ => 0);
      var status := disk.ReadInto(inode.indirect as int, ind);
      if status != 0 {
        return Some(Returned(-1)), ind;
      }
    }
    if pl.first < 0 {
      return Some(Threw), ind;
    }
    var status := disk.ReadInto(inode.direct[pl.first] as int, blockData);
    if status != 0 {
      return Some(Returned(-1)), ind;
    }
    stop := None;
  }

  /**
   * One pass of read's loop with the pointer `lp` for block n: the block
   * read, `chunk` bytes copied to the buffer at bo, the seek pointer
   * advanced; stated as what is left: its end, or the loop from block n + 1.
   */
  method ReadPass(disk: Disk, entry: FileTableEntry, ind: array?<byte>, lp: Outcome<int>, n: int, last: int, size: int32,
                  bo: int32, buffer: array<byte>, blockData: array<byte>, ghost direct: seq<short>, ghost tables: Option<seq<byte>>,
                  ghost buf: seq<byte>, ghost sp: int32)
    returns (stop: Option<Outcome<int>>, bo': int32, ghost buf': seq<byte>, ghost sp': int32)
    requires disk.Valid() && entry.inode.Valid() && 0 <= n <= last && (ind != null ==> ind.Length == BLOCK_SIZE)
    requires blockData.Length == BLOCK_SIZE && buffer != blockData && ind != blockData && ind != buffer
    requires direct == entry.inode.direct[..] && tables == Contents(ind) && buf == buffer[..] && sp == entry.seekPtr
    modifies entry, buffer, blockData
    ensures entry.count == old(entry.count)
    ensures direct == entry.inode.direct[..] && tables == Contents(ind) && buf' == buffer[..] && sp' == entry.seekPtr
    ensures var e := ReadOn(disk.blocks, direct, tables, lp, n, last, size, bo, buf, sp);
      (stop.Some? ==> stop.value == e.answer && buf' == e.buffer && sp' == e.seekPtr)
      && (stop.None? ==> ReadLoop(disk.blocks, direct, tables, n + 1, last, size, bo', buf', sp') == e)
  {
    ReadOnCases(disk.blocks, direct, tables, lp, n, last, size, bo, buf, sp);
    if lp.Threw? {
      return Some(Threw), bo, buf, sp;
    }
    stop, bo', buf', sp' := ReadBlock(disk, entry, lp.value, size, bo, buffer, blockData, buf, sp);
  }

  /** A pass of read's loop on block `ptr`: -1 when it is off the device, an exception when the chunk does not fit, else the copy. */
  method ReadBlock(disk: Disk, entry: FileTableEntry, ptr: int, size: int32, bo: int32, buffer: array<byte>, blockData: array<byte>,
                   ghost buf: seq<byte>, ghost sp: int32)
    returns (stop: Option<Outcome<int>>, bo': int32, ghost buf': seq<byte>, ghost sp': int32)
    requires disk.Valid() && blockData.Length == BLOCK_SIZE && buffer != blockData
    requires buf == buffer[..] && sp == entry.seekPtr
    modifies entry, buffer, blockData
    ensures entry.count == old(entry.count)
    ensures buf' == buffer[..] && sp' == entry.seekPtr
    ensures var chunk := Chunk(size, bo);
      if !OnDisk(disk.blocks, ptr) then stop == Some(Returned(-1)) && buf' == buf && sp' == sp
      else if !CopyFits(BLOCK_SIZE, 0, |buf|, bo, chunk) then stop == Some(Threw) && buf' == buf && sp' == sp
      else stop.None? && bo' == Int32(bo + chunk) && buf' == Copy(buf, bo, disk.blocks[ptr], 0, chunk) && sp' == Int32(sp + chunk)
  {
    buf', sp' := buf, sp;
    var status := disk.ReadInto(ptr, blockData);
    if status != 0 {
      return Some(Returned(-1)), bo, buf', sp';
    }
    var chunk := Chunk(size, bo);
    if !CopyFits(BLOCK_SIZE, 0, buffer.Length, bo, chunk) {
      return Some(Threw), bo, buf', sp';
    }
    buf', sp' := Copy(buf, bo, disk.blocks[ptr], 0, chunk), Int32(sp + chunk);
    CopyOut(entry, blockData, buffer, bo, chunk, buf, sp, disk.blocks[ptr]);
    stop, bo' := None, Int32(bo as int + chunk as int);
  }

  /** read's copy of `chunk` bytes of the block read into the buffer at bo, and seekPtr advanced by as many. */
  method CopyOut(entry: FileTableEntry, blockData: array<byte>, buffer: array<byte>, bo: int32, chunk: int32,
                 ghost buf: seq<byte>, ghost sp: int32, ghost data: seq<byte>)
    requires blockData != buffer && CopyFits(blockData.Length, 0, buffer.Length, bo, chunk)
    requires buf == buffer[..] && sp == entry.seekPtr && data == blockData[..]
    modifies entry, buffer
    ensures entry.count == old(entry.count)
    ensures buffer[..] == Copy(buf, bo, data, 0, chunk)
    ensures entry.seekPtr == Int32(sp + chunk)
  {
    ArrayCopy(blockData, 0, buffer, bo, chunk);
    entry.seekPtr := Int32(entry.seekPtr as int + chunk as int);
  }

  /** The four ends of a pass of read's loop: an exception, -1 for a block off the device, an exception from the copy, or the loop from block n + 1. */
  lemma ReadOnCases(blocks: seq<seq<byte>>, direct: seq<short>, ind: Option<seq<byte>>, lp: Outcome<int>,
                    n: int, last: int, size: int32, bo: int32, buf: seq<byte>, seekPtr: int32)
    requires AllBlocks(blocks) && |direct| == DIRECT_SIZE && 0 <= n <= last && (ind.Some? ==> |ind.value| == BLOCK_SIZE)
    ensures var e := ReadOn(blocks, direct, ind, lp, n, last, size, bo, buf, seekPtr);
      var chunk := Chunk(size, bo);
      if lp.Threw? then e == ReadEnd(Threw, buf, seekPtr)
      else if !OnDisk(blocks, lp.value) then e == ReadEnd(Returned(-1), buf, seekPtr)
      else if !CopyFits(BLOCK_SIZE, 0, |buf|, bo, chunk) then e == ReadEnd(Threw, buf, seekPtr)
      else e == ReadLoop(blocks, direct, ind, n + 1, last, size, Int32(bo + chunk), Copy(buf, bo, blocks[lp.value], 0, chunk), Int32(seekPtr + chunk))
  {
  }

  /** read's loop over blocks n..last, the buffer at bo. */
  method ReadBlocks(disk: Disk, entry: FileTableEntry, ind: array?<byte>, n: int, last: int, size: int32, bo: int32,
                    buffer: array<byte>, blockData: array<byte>)
    returns (answer: Outcome<int>)
    requires disk.Valid() && entry.inode.Valid() && 0 <= n && (ind != null ==> ind.Length == BLOCK_SIZE)
    requires blockData.Length == BLOCK_SIZE && buffer != blockData && ind != blockData && ind != buffer
    modifies entry, buffer, blockData
    ensures entry.count == old(entry.count)
    ensures var e := ReadLoop(disk.blocks, entry.inode.direct[..], Contents(ind), n, last, size, bo, old(buffer[..]), old(entry.seekPtr));
      answer == e.answer && buffer[..] == e.buffer && entry.seekPtr == e.seekPtr
  {
    ghost var direct, tables := entry.inode.direct[..], Contents(ind);
    ghost var target := ReadLoop(disk.blocks, direct, tables, n, last, size, bo, buffer[..], entry.seekPtr);
    var k := n;
    var at := bo;
    while k <= last
      invariant 0 <= k && direct == entry.inode.direct[..] && tables == Contents(ind)
      invariant entry.count == old(entry.count)
      invariant ReadLoop(disk.blocks, direct, tables, k, last, size, at, buffer[..], entry.seekPtr) == target
      decreases last - k
    {
      var lp := LoopPointer(entry.inode.direct[..], Contents(ind), k);
      var stop;
      ghost var buf', sp';
      stop, at, buf', sp' := ReadPass(disk, entry, ind, lp, k, last, size, at, buffer, blockData, direct, tables, buffer[..], entry.seekPtr);
      if stop.Some? {
        return stop.value;
      }
      k := k + 1;
    }
    return Returned(size);
  }

  /** read once its first block is open: one copy, or the first block's tail and the loop over the rest. */
  method ReadOpened(disk: Disk, entry: FileTableEntry, pl: Plan, ind: array?<byte>, buffer: array<byte>, blockData: array<byte>)
    returns (answer: Outcome<int>)
    requires disk.Valid() && entry.inode.Valid() && (ind != null ==> ind.Length == BLOCK_SIZE)
    requires blockData.Length == BLOCK_SIZE && buffer != blockData && ind != blockData && ind != buffer
    requires ReadFirst(disk.blocks, entry.inode.direct[..], entry.inode.indirect as int, pl) == Opened(blockData[..], Contents(ind))
    modifies entry, buffer, blockData
    ensures entry.count == old(entry.count)
    ensures var e := ReadFrom(disk.blocks, entry.inode.direct[..], entry.inode.indirect as int, pl,
                              old(entry.seekPtr), old(buffer[..]));
      answer == e.answer && buffer[..] == e.buffer && entry.seekPtr == e.seekPtr
  {
    if pl.count == 1 {
      if !CopyFits(BLOCK_SIZE, pl.offset, buffer.Length, 0, pl.size as int) {
        answer := Threw;
      } else {
        ArrayCopy(blockData, pl.offset, buffer, 0, pl.size as int);
        entry.seekPtr := Int32(entry.seekPtr as int + pl.size as int);
        answer := Returned(pl.size as int);
      }
    } else {
      var head := BLOCK_SIZE - pl.offset;
      if !CopyFits(BLOCK_SIZE, pl.offset, buffer.Length, 0, head) || pl.first + 1 < 0 {
        answer := Threw;
      } else {
        ArrayCopy(blockData, pl.offset, buffer, 0, head);
        answer := ReadBlocks(disk, entry, ind, pl.first + 1, pl.last, pl.size, head as int32, buffer, blockData);
      }
    }
  }

  /**
   * read after its argument checks and waitRead: the plan, the first block,
   * then one copy, or the first block's tail and the loop over the rest. It
   * answers, fills the buffer and moves the seek pointer as ReadBody does.
   */
  method ReadTransfer(disk: Disk, entry: FileTableEntry, buffer: array<byte>) returns (answer: Outcome<int>)
    requires disk.Valid() && entry.inode.Valid() && buffer.Length < TWO_31
    modifies entry, buffer
    ensures entry.count == old(entry.count)
    ensures var e := ReadBody(disk.blocks, entry.inode.direct[..], entry.inode.indirect as int, entry.inode.length,
                              old(entry.seekPtr), old(buffer[..]));
      answer == e.answer && buffer[..] == e.buffer && entry.seekPtr == e.seekPtr
  {
    var pl := ReadPlan(entry.seekPtr, buffer.Length, entry.inode.length);
    var blockData := new byte[BLOCK_SIZE](_ => 0);
    var stop, ind;
    if pl.first >= DIRECT_SIZE {
      stop, ind := StartReadIndirect(disk, entry.inode, pl, blockData);
    } else {
      stop, ind := StartReadDirect(disk, entry.inode, pl, blockData);
    }
    if stop.Some? {
      answer := stop.value;
    } else {
      answer := ReadOpened(disk, entry, pl, ind, buffer, blockData);
    }
  }

  // ---------------------------------------------------------------------------
  // delete: the blocks of a file handed back

  /** returnBlock on each pointer of `ptrs` in turn, its answers dropped. */
  function FreeAll(a: Allocator, totalBlocks: int32, ptrs: seq<short>): (r: Allocator)
    requires AllBlocks(a.blocks)
    ensures AllBlocks(r.blocks) && |r.blocks| == |a.blocks|
  {
    if ptrs == [] then a
    else Free(FreeAll(a, totalBlocks, ptrs[..|ptrs| - 1]), totalBlocks, ptrs[|ptrs| - 1]).after
  }

  /** Handing back `xs` and then `ys` is handing back `xs + ys`. */
  lemma {:induction false} FreeAllAppend(a: Allocator, totalBlocks: int32, xs: seq<short>, ys: seq<short>)
    requires AllBlocks(a.blocks)
    ensures FreeAll(FreeAll(a, totalBlocks, xs), totalBlocks, ys) == FreeAll(a, totalBlocks, xs + ys)
    decreases |ys|
  {
    if ys == [] {
      assert xs + ys == xs;
    } else {
      var init := ys[..|ys| - 1];
      FreeAllAppend(a, totalBlocks, xs, init);
      assert (xs + ys)[..|xs + ys| - 1] == xs + init;
      assert (xs + ys)[|xs + ys| - 1] == ys[|ys| - 1];
    }
  }

  /** A block none of `ptrs` names keeps its contents. */
  lemma {:induction false} FreeAllKeeps(a: Allocator, totalBlocks: int32, ptrs: seq<short>, b: int)
    requires AllBlocks(a.blocks) && 0 <= b < |a.blocks| && forall i | 0 <= i < |ptrs| :: ptrs[i] != b
    ensures FreeAll(a, totalBlocks, ptrs).blocks[b] == a.blocks[b]
    decreases |ptrs|
  {
    if ptrs != [] {
      FreeAllKeeps(a, totalBlocks, ptrs[..|ptrs| - 1], b);
    }
  }

  /** The first `k` entries of a pointer table that delete hands back: the positive ones, in order. */
  function PositiveEntries(table: seq<byte>, k: int): (s: seq<short>)
    requires |table| == BLOCK_SIZE && 0 <= k <= INDIRECT_SLOTS
    ensures forall i | 0 <= i < |s| :: s[i] > 0
  {
    if k == 0 then []
    else
      var e := GetShort(table, (k - 1) * 2);
      PositiveEntries(table, k - 1) + (if e > 0 then [e] else [])
  }

  /** The pointers of `ptrs` that are not negative, in order: the ones returnBlock may take. */
  function NonNegative(ptrs: seq<short>): (s: seq<short>)
    ensures |s| <= |ptrs|
  {
    if ptrs == [] then []
    else
      var last := ptrs[|ptrs| - 1];
      NonNegative(ptrs[..|ptrs| - 1]) + (if last >= 0 then [last] else [])
  }

  function Reverse(s: seq<int>): (r: seq<int>)
    ensures |r| == |s|
  {
    if s == [] then [] else [s[|s| - 1]] + Reverse(s[..|s| - 1])
  }

  lemma {:induction false} NonNegativeIn(ptrs: seq<short>, x: short)
    ensures x in NonNegative(ptrs) <==> x in ptrs && x >= 0
    decreases |ptrs|
  {
    if ptrs != [] {
      var init := ptrs[..|ptrs| - 1];
      NonNegativeIn(init, x);
      assert ptrs == init + [ptrs[|ptrs| - 1]];
    }
  }

  lemma {:induction false} ReverseIn(s: seq<int>, x: int)
    ensures x in Reverse(s) <==> x in s
    decreases |s|
  {
    if s != [] {
      var init := s[..|s| - 1];
      ReverseIn(init, x);
      assert s == init + [s[|s| - 1]];
    }
  }

  lemma ReverseSnoc(s: seq<int>, x: int)
    ensures Reverse(s + [x]) == [x] + Reverse(s)
  {
    assert (s + [x])[..|s|] == s;
  }

  /** The blocks delete hands back, in order: the direct pointers, then the positive entries of the indirect block and that block. */
  ghost function FileBlocks(blocks: seq<seq<byte>>, direct: seq<short>, indirect: short): seq<short>
    requires AllBlocks(blocks)
  {
    direct + (if indirect == -1 || !OnDisk(blocks, indirect) then []
              else PositiveEntries(blocks[indirect], INDIRECT_SLOTS) + [indirect])
  }

  /** What delete's returns leave: not ok when the indirect block cannot be read (the direct pointers are back by then). */
  datatype Reclaimed = Reclaimed(ok: bool, after: Allocator)

  function Reclaim(a: Allocator, totalBlocks: int32, direct: seq<short>, indirect: short): (r: Reclaimed)
    requires AllBlocks(a.blocks)
    ensures AllBlocks(r.after.blocks) && |r.after.blocks| == |a.blocks|
  {
    var a1 := FreeAll(a, totalBlocks, direct);
    if indirect == -1 then Reclaimed(true, a1)
    else if !OnDisk(a1.blocks, indirect) then Reclaimed(false, a1)
    else Reclaimed(true, FreeAll(a1, totalBlocks, PositiveEntries(a1.blocks[indirect], INDIRECT_SLOTS) + [indirect]))
  }

  /** Blocks fit to hand back: each negative (refused) or a block of the device off `chain`, no block twice. */
  ghost predicate Returnable(blocks: seq<seq<byte>>, ptrs: seq<short>, chain: seq<int>)
  {
    (forall i | 0 <= i < |ptrs| :: ptrs[i] < 0 || (1 <= ptrs[i] < |blocks| && ptrs[i] as int !in chain))
    && (forall i, j | 0 <= i < j < |ptrs| && 0 <= ptrs[i] :: ptrs[i] != ptrs[j])
  }

  /**
   * Handing back blocks that are not on a well-formed free list puts them on
   * it, the last one first: the list becomes the blocks in reverse, then the
   * old list.
   */
  lemma {:induction false} FreeAllExtendsChain(a: Allocator, ptrs: seq<short>, chain: seq<int>)
    requires AllBlocks(a.blocks) && |a.blocks| < TWO_31 && IsChain(a.blocks, a.freeList, chain)
    requires Returnable(a.blocks, ptrs, chain)
    ensures var r := FreeAll(a, |a.blocks| as int32, ptrs);
      IsChain(r.blocks, r.freeList, Reverse(NonNegative(ptrs)) + chain)
    decreases |ptrs|
  {
    if ptrs != [] {
      var init, last := ptrs[..|ptrs| - 1], ptrs[|ptrs| - 1];
      ReturnableInit(a.blocks, ptrs, chain);
      FreeAllExtendsChain(a, init, chain);
      var tb := |a.blocks| as int32;
      var nn := NonNegative(init);
      NonNegativeIn(init, last);
      var b := FreeAll(a, tb, init);
      PushFreed(b, nn, chain, last);
      assert FreeAll(a, tb, ptrs) == Free(b, tb, last).after;
      assert NonNegative(ptrs) == nn + (if last >= 0 then [last] else []);
    } else {
      assert Reverse(NonNegative(ptrs)) + chain == chain;
    }
  }

  /** What is fit to hand back stays so without its last block, and that block is off the list and not handed back before. */
  lemma ReturnableInit(blocks: seq<seq<byte>>, ptrs: seq<short>, chain: seq<int>)
    requires Returnable(blocks, ptrs, chain) && ptrs != []
    ensures Returnable(blocks, ptrs[..|ptrs| - 1], chain)
    ensures var last := ptrs[|ptrs| - 1];
      last >= 0 ==> 1 <= last < |blocks| && last as int !in chain && last !in ptrs[..|ptrs| - 1]
  {
  }

  /** One more return on top of the list the earlier ones built. */
  lemma PushFreed(b: Allocator, nn: seq<short>, chain: seq<int>, last: short)
    requires AllBlocks(b.blocks) && |b.blocks| < TWO_31 && IsChain(b.blocks, b.freeList, Reverse(nn) + chain)
    requires last >= 0 ==> 1 <= last < |b.blocks| && last as int !in chain && last !in nn
    ensures var r := Free(b, |b.blocks| as int32, last).after;
      IsChain(r.blocks, r.freeList, Reverse(nn + (if last >= 0 then [last] else [])) + chain)
  {
    if last >= 0 {
      PushedBlock(b, nn, chain, last);
    } else {
      assert nn + [] == nn;
    }
  }

  /** A block handed back goes on the front of the list. */
  lemma PushedBlock(b: Allocator, nn: seq<short>, chain: seq<int>, last: short)
    requires AllBlocks(b.blocks) && |b.blocks| < TWO_31 && IsChain(b.blocks, b.freeList, Reverse(nn) + chain)
    requires 1 <= last < |b.blocks| && last as int !in chain && last !in nn
    ensures var r := Free(b, |b.blocks| as int32, last).after;
      IsChain(r.blocks, r.freeList, Reverse(nn + [last]) + chain)
  {
    var c := Reverse(nn) + chain;
    ReverseIn(nn, last as int);
    assert last as int !in c;
    ReturnExtendsChain(b, c, last);
    var r := Free(b, |b.blocks| as int32, last).after;
    assert r.freeList == last as int;
    ReverseSnoc(nn, last as int);
    assert Reverse(nn + [last]) + chain == [last as int] + c;
  }

  /**
   * delete hands every block of the file back: when the direct pointers, the
   * positive entries of the indirect block and the indirect block itself are
   * distinct blocks off the free list, the returns succeed and the free list
   * becomes those blocks, the last returned first, followed by the old list.
   */
  lemma ReclaimExtendsChain(a: Allocator, direct: seq<short>, indirect: short, chain: seq<int>)
    requires AllBlocks(a.blocks) && |a.blocks| < TWO_31 && IsChain(a.blocks, a.freeList, chain)
    requires indirect == -1 || OnDisk(a.blocks, indirect)
    requires Returnable(a.blocks, FileBlocks(a.blocks, direct, indirect), chain)
    ensures var r := Reclaim(a, |a.blocks| as int32, direct, indirect);
      r.ok && IsChain(r.after.blocks, r.after.freeList, Reverse(NonNegative(FileBlocks(a.blocks, direct, indirect))) + chain)
  {
    var tb := |a.blocks| as int32;
    var ptrs := FileBlocks(a.blocks, direct, indirect);
    if indirect == -1 {
      assert ptrs == direct;
      FreeAllExtendsChain(a, direct, chain);
    } else {
      assert forall i | 0 <= i < |direct| :: direct[i] != indirect by {
        assert ptrs[|ptrs| - 1] == indirect;
        forall i | 0 <= i < |direct| ensures direct[i] != indirect {
          assert ptrs[i] == direct[i];
        }
      }
      FreeAllKeeps(a, tb, direct, indirect);
      var a1 := FreeAll(a, tb, direct);
      FreeAllAppend(a, tb, direct, PositiveEntries(a.blocks[indirect], INDIRECT_SLOTS) + [indirect]);
      FreeAllExtendsChain(a, ptrs, chain);
    }
  }

  /** The loop of delete over the direct pointers: returnBlock on each in turn. */
  method ReturnPointers(sb: SuperBlock, ptrs: array<short>)
    requires sb.Valid()
    modifies sb, sb.disk
    ensures sb.Valid() && sb.totalBlocks == old(sb.totalBlocks) && sb.totalInodes == old(sb.totalInodes)
    ensures sb.State() == FreeAll(old(sb.State()), sb.totalBlocks, ptrs[..])
  {
    for j := 0 to ptrs.Length
      invariant sb.Valid() && sb.totalBlocks == old(sb.totalBlocks) && sb.totalInodes == old(sb.totalInodes)
      invariant sb.State() == FreeAll(old(sb.State()), sb.totalBlocks, ptrs[..j])
    {
      var _ := sb.ReturnBlock(ptrs[j]);
      assert ptrs[..j + 1][..j] == ptrs[..j];
    }
    assert ptrs[..ptrs.Length] == ptrs[..];
  }

  /** The loop of delete over the indirect block: returnBlock on each of its 256 entries that is positive. */
  method ReturnEntries(sb: SuperBlock, table: array<byte>)
    requires sb.Valid() && table.Length == BLOCK_SIZE
    modifies sb, sb.disk
    ensures sb.Valid() && sb.totalBlocks == old(sb.totalBlocks) && sb.totalInodes == old(sb.totalInodes)
    ensures sb.State() == FreeAll(old(sb.State()), sb.totalBlocks, PositiveEntries(table[..], INDIRECT_SLOTS))
  {
    ghost var a0 := sb.State();
    for k := 0 to INDIRECT_SLOTS
      invariant sb.Valid() && sb.totalBlocks == old(sb.totalBlocks) && sb.totalInodes == old(sb.totalInodes)
      invariant sb.State() == FreeAll(a0, sb.totalBlocks, PositiveEntries(table[..], k))
    {
      ReturnEntry(sb, table[..], k, a0);
    }
  }

  /** One pass of delete's loop over the indirect block: entry k is handed back when it is positive. */
  method ReturnEntry(sb: SuperBlock, table: seq<byte>, k: int, ghost a0: Allocator)
    requires sb.Valid() && |table| == BLOCK_SIZE && 0 <= k < INDIRECT_SLOTS && AllBlocks(a0.blocks)
    requires sb.State() == FreeAll(a0, sb.totalBlocks, PositiveEntries(table, k))
    modifies sb, sb.disk
    ensures sb.Valid() && sb.totalBlocks == old(sb.totalBlocks) && sb.totalInodes == old(sb.totalInodes)
    ensures sb.State() == FreeAll(a0, sb.totalBlocks, PositiveEntries(table, k + 1))
  {
    var b := GetShort(table, k * 2);
    if b > 0 {
      var _ := sb.ReturnBlock(b);
      FreeOneMore(a0, sb.totalBlocks, PositiveEntries(table, k), b);
    } else {
      assert PositiveEntries(table, k + 1) == PositiveEntries(table, k) + [];
      assert PositiveEntries(table, k) + [] == PositiveEntries(table, k);
    }
  }

  /** Handing back one more pointer after `ptrs` is one more free on the allocator. */
  lemma FreeOneMore(a: Allocator, totalBlocks: int32, ptrs: seq<short>, b: short)
    requires AllBlocks(a.blocks)
    ensures FreeAll(a, totalBlocks, ptrs + [b]) == Free(FreeAll(a, totalBlocks, ptrs), totalBlocks, b).after
  {
    assert (ptrs + [b])[..|ptrs|] == ptrs;
  }

  /**
   * delete's returns: the direct pointers, then, when the inode has an
   * indirect block, the positive entries that cread finds in it and the
   * block itself. False when that cread fails.
   */
  method ReclaimBlocks(sb: SuperBlock, inode: Inode) returns (ok: bool)
    requires sb.Valid() && inode.Valid()
    modifies sb, sb.disk
    ensures sb.Valid() && sb.totalBlocks == old(sb.totalBlocks) && sb.totalInodes == old(sb.totalInodes)
    ensures Reclaim(old(sb.State()), sb.totalBlocks, inode.direct[..], inode.indirect) == Reclaimed(ok, sb.State())
  {
    ReturnPointers(sb, inode.direct);
    ok := true;
    if inode.indirect != -1 {
      var data := new byte[BLOCK_SIZE](_ => 0);
      var status := sb.disk.ReadInto(inode.indirect, data);
      if status != 0 {
        ok := false;
      } else {
        ghost var a1 := sb.State();
        ghost var entries := PositiveEntries(data[..], INDIRECT_SLOTS);
        ReturnEntries(sb, data);
        var _ := sb.ReturnBlock(inode.indirect);
        assert (entries + [inode.indirect])[..|entries|] == entries;
        assert sb.State() == FreeAll(a1, sb.totalBlocks, entries + [inode.indirect]);
      }
    }
  }

  // ---------------------------------------------------------------------------
  // The facade: descriptors, seek, and the calls of FileSystem

  const SEEK_SET: int := 0
  const SEEK_CUR: int := 1
  const SEEK_END: int := 2
  const SUCCESS: int := 0
  const ERROR: int := -1

  /** The modes open accepts (compared by value). */
  predicate OpenMode(mode: string)
  {
    mode == "r" || mode == "w" || mode == "w+" || mode == "a"
  }

  /** The modes read accepts. */
  predicate ReadMode(mode: string)
  {
    mode == "r" || mode == "w+"
  }

  /** The modes write accepts. */
  predicate WriteMode(mode: string)
  {
    mode == "w" || mode == "w+" || mode == "a"
  }

  /**
   * The entry descriptor `fd` names in the calling thread's table, or null:
   * for fd < 3, for a thread without a control block (a null table), for an
   * index past the table and for an empty slot.
   */
  function Descriptor(ftEnt: array?<FileTableEntry?>, fd: int): (e: FileTableEntry?)
    reads ftEnt
    ensures e != null <==> ftEnt != null && 3 <= fd < ftEnt.Length && ftEnt[fd] != null
    ensures e != null ==> e == ftEnt[fd]
  {
    if ftEnt == null || fd < 3 || fd >= ftEnt.Length then null else ftEnt[fd]
  }

  /** What a call on descriptor `fd` may change: the entry, its inode and that inode's pointers. */
  function OpenFrame(ftEnt: array?<FileTableEntry?>, fd: int): set<object>
    reads ftEnt
  {
    var e := Descriptor(ftEnt, fd);
    if e == null then {} else {e, e.inode, e.inode.direct}
  }

  /** The entry in the slot an answer names, or null when the answer names no slot. */
  function EntryAt(ftEnt: array<FileTableEntry?>, r: Wait<int>): FileTableEntry?
    reads ftEnt
  {
    if r.Done? && 0 <= r.value < ftEnt.Length then ftEnt[r.value] else null
  }

  /** Every open file of the thread has an inode with its eleven direct pointers. */
  ghost predicate Descriptors(ftEnt: array?<FileTableEntry?>)
    reads ftEnt
  {
    ftEnt != null ==> forall k | 0 <= k < ftEnt.Length && ftEnt[k] != null :: ftEnt[k].inode.Valid()
  }

  /**
   * boundSeekPtr: a negative target becomes 0 and a target past the end
   * becomes length - 1, so for a non-empty file the pointer stays in
   * [0, length] and a target in that range is kept.
   */
  function BoundSeekPtr(seekPtr: int32, length: int32): (r: int32)
    ensures seekPtr < 0 ==> r == 0
    ensures 1 <= length ==> 0 <= r <= length
    ensures 0 <= seekPtr <= length ==> r == seekPtr
  {
    if seekPtr < 0 then 0 else if seekPtr > length then Int32(length - 1) else seekPtr
  }

  /** A target past the end lands on the last byte, not at the end where an append would go. */
  lemma SeekPastEndStopsShort(seekPtr: int32, length: int32)
    requires 0 <= length < seekPtr
    ensures BoundSeekPtr(seekPtr, length) == length - 1 && BoundSeekPtr(seekPtr, length) != length
  {
  }

  /** In an empty file every positive target gives -1: the clamp leaves the file. */
  lemma SeekInEmptyFileGoesNegative(seekPtr: int32)
    requires seekPtr > 0
    ensures BoundSeekPtr(seekPtr, 0) == -1
  {
  }

  /** The target seek clamps: the offset itself, or added (with int wrap-around) to the pointer or the length. */
  function SeekTarget(whence: int, offset: int32, seekPtr: int32, length: int32): (t: int32)
    requires whence == SEEK_SET || whence == SEEK_CUR || whence == SEEK_END
    ensures whence == SEEK_SET ==> t == offset
    ensures whence == SEEK_CUR ==> (t - (seekPtr + offset)) % TWO_32 == 0
    ensures whence == SEEK_END ==> (t - (length + offset)) % TWO_32 == 0
  {
    if whence == SEEK_SET then offset
    else if whence == SEEK_CUR then Int32(seekPtr + offset)
    else Int32(length + offset)
  }

  /** Some slot from 3 on is free. */
  ghost predicate HasFree(ftEnt: array<FileTableEntry?>)
    reads ftEnt
  {
    exists k | 3 <= k < ftEnt.Length :: ftEnt[k] == null
  }

  /** The slot search of open: the lowest null slot from 3 on, or the table's length when all are taken. */
  method LowestFree(ftEnt: array<FileTableEntry?>) returns (fd: int)
    ensures 3 <= fd && (fd == 3 || fd <= ftEnt.Length)
    ensures fd < ftEnt.Length ==> ftEnt[fd] == null
    ensures forall k | 3 <= k < fd && k < ftEnt.Length :: ftEnt[k] != null
  {
    fd := 3;
    while fd < ftEnt.Length && ftEnt[fd] != null
      invariant 3 <= fd && (fd == 3 || fd <= ftEnt.Length)
      invariant forall k | 3 <= k < fd && k < ftEnt.Length :: ftEnt[k] != null
    {
      fd := fd + 1;
    }
  }

  /** A row is matched by its own text, so delete's scan for the name iname gives always stops, at that row or before. */
  lemma DeleteFindsSlot(rows: seq<seq<jchar>>, k: int)
    requires 0 <= k < |rows|
    ensures 0 <= FindFrom(rows, rows[k], 0) <= k
  {
    CompareRowWithItself(rows[k]);
  }

  /** Every entry left after a removal was in the table before. */
  lemma RemoveAtKeeps(t: seq<FileTableEntry>, i: int)
    requires 0 <= i < |t|
    ensures forall e | e in RemoveAt(t, i) :: e in t
  {
    forall e | e in RemoveAt(t, i) ensures e in t {
      var k :| 0 <= k < |RemoveAt(t, i)| && RemoveAt(t, i)[k] == e;
    }
  }

  /** The open-file table, the directory's sizes and rows, the superblock's counters and the device, as values. */
  datatype Snapshot = Snapshot(table: seq<FileTableEntry>, fsize: seq<int>, rows: seq<seq<jchar>>, sb: SuperRecord,
                               blocks: seq<seq<byte>>)

  /** A snapshot of a valid state: one row of 30 chars per size, and whole blocks. */
  ghost predicate Whole(s: Snapshot)
  {
    |s.rows| == |s.fsize| && (forall k | 0 <= k < |s.rows| :: |s.rows[k]| == MAX_CHARS) && AllBlocks(s.blocks)
  }

  /**
   * The state open starts from, as far as its contract needs it: whether
   * falloc would refuse or wait, the number namei gives, the first free
   * directory row, the inode falloc would find, the table, the directory's
   * sizes and rows, the device's blocks and the table's inode for the name.
   */
  datatype OpenStart = OpenStart(refused: bool, waits: bool, n: int, free: int, found: InodeRecord,
                                 table: seq<FileTableEntry>, fsize: seq<int>, rows: seq<seq<jchar>>,
                                 blocks: seq<seq<byte>>, resident: set<Inode>)

  /**
   * The state close starts from, as far as its contract needs it: the table,
   * ffree's position `at` in it, whether that entry's inode is free to write,
   * the entry's count, its inode's count and fields, the count and fields of
   * the closed entry's own inode, whether that inode is marked for death,
   * and a snapshot of the rest.
   */
  datatype CloseStart = CloseStart(table: seq<FileTableEntry>, at: int, writable: bool, holderCount: int32,
                                   holderInodeCount: short, count: short, dying: bool, record: InodeRecord,
                                   holderRecord: InodeRecord, snap: Snapshot)

  class FileSystem {
    const superBlock: SuperBlock
    const dir: Directory
    const fileTable: FileTable

    /** The superblock matches the device, and the open-file table works over this directory. */
    ghost predicate Valid()
      reads this, superBlock, superBlock.disk, dir, dir.fsize, fileTable
    {
      superBlock.Valid() && fileTable.dir == dir && fileTable.Valid()
    }

    /** A file system over its three parts. */
    constructor (sb: SuperBlock, d: Directory, ft: FileTable)
      requires sb.Valid() && ft.dir == d && ft.Valid()
      ensures Valid() && superBlock == sb && dir == d && fileTable == ft
    {
      superBlock := sb;
      dir := d;
      fileTable := ft;
    }

    /** open would refuse `filename`: unknown and impossible to create, or known and marked for death. */
    ghost predicate OpenRefused(filename: seq<jchar>)
      reads this, superBlock, superBlock.disk, dir, dir.fsize, dir.fnames, fileTable
      reads set e | e in fileTable.table :: e.inode, set e | e in fileTable.table :: e.inode.direct
      requires Valid()
    {
      var n := dir.Namei(filename);
      if n == -1 then |filename| > MAX_CHARS || FreeFrom(RowsOf(dir.fnames), 0) == -1
      else fileTable.Found(n, superBlock).flag & MARKED_FOR_DEATH != 0
    }

    /** open would wait: the file is known, not dying, and a reader or writer holds its inode. */
    ghost predicate OpenWaits(filename: seq<jchar>)
      reads this, superBlock, superBlock.disk, dir, dir.fsize, dir.fnames, fileTable
      reads set e | e in fileTable.table :: e.inode, set e | e in fileTable.table :: e.inode.direct
      requires Valid()
    {
      var n := dir.Namei(filename);
      var found := fileTable.Found(n, superBlock);
      n != -1 && found.flag & MARKED_FOR_DEATH == 0 && !MayWrite(Lock(found.flag, found.readerCount))
    }

    /** The state open of `filename` starts from. */
    ghost function OpenStartOf(filename: seq<jchar>): (os: OpenStart)
      reads this, superBlock, superBlock.disk, dir, dir.fsize, dir.fnames, fileTable
      reads set e | e in fileTable.table :: e.inode, set e | e in fileTable.table :: e.inode.direct
      requires Valid()
      ensures |os.found.direct| == DIRECT_SIZE && AllBlocks(os.blocks)
      ensures forall k | 0 <= k < |os.rows| :: |os.rows[k]| == MAX_CHARS
    {
      var n := dir.Namei(filename);
      OpenStart(OpenRefused(filename), OpenWaits(filename), n, FreeFrom(RowsOf(dir.fnames), 0), fileTable.Found(n, superBlock),
                fileTable.table, dir.fsize[..], RowsOf(dir.fnames), superBlock.disk.blocks, fileTable.Resident(filename))
    }

    /**
     * The table and the directory after falloc, against their values `t0`,
     * `fsize0` and `rows0` before it, `n` being what namei gave and `e` the
     * entry falloc handed out (null when it refused or waited): for a new
     * name, the entry appended to the table and the name written into the
     * first free row; otherwise both as they were.
     */
    ghost predicate Listed(n: int, filename: seq<jchar>, t0: seq<FileTableEntry>, fsize0: seq<int>, rows0: seq<seq<jchar>>,
                           e: FileTableEntry?)
      reads this, fileTable, dir, dir.fsize, dir.fnames
      requires dir.fnames.Length1 == MAX_CHARS && forall k | 0 <= k < |rows0| :: |rows0[k]| == MAX_CHARS
    {
      var free := FreeFrom(rows0, 0);
      if n == -1 && e != null then
        fileTable.table == t0 + [e] && 0 <= free < |fsize0| && free < |rows0| && |filename| <= |rows0[free]|
        && dir.fsize[..] == fsize0[free := |filename|] && RowsOf(dir.fnames) == rows0[free := filename + rows0[free][|filename|..]]
      else
        fileTable.table == t0 && dir.fsize[..] == fsize0 && RowsOf(dir.fnames) == rows0
    }

    /**
     * The device and the inodes after falloc, against the device `blocks0`
     * before it, `n` being what namei gave, `free` the first free row,
     * `found` the inode falloc finds for `n` and `resident` the table's
     * inode for the name, if any, and `e` the entry falloc handed out (null
     * when it refused or waited): for a refused or waiting falloc, the
     * device and the resident inode as they were; for a new name, a count-1
     * invalid inode, stored as ialloc leaves it and then with count 1 and
     * WRITE set; for a known name, the found inode, shared when resident,
     * with one more count and written back with WRITE set.
     */
    ghost predicate Stored(n: int, free: int, found: InodeRecord, blocks0: seq<seq<byte>>, resident: set<Inode>,
                           e: FileTableEntry?)
      reads superBlock, superBlock.disk, resident, set ino | ino in resident :: ino.direct
      reads if e != null then {e, e.inode, e.inode.direct} else {}
      requires AllBlocks(blocks0) && |found.direct| == DIRECT_SIZE
    {
      if e == null then
        superBlock.disk.blocks == blocks0 && forall ino | ino in resident :: ino.Valid() && ino.Record() == found
      else if n == -1 then
        e.inode.Valid() && e.inode.Record() == InvalidRecord().(count := 1)
        && superBlock.disk.blocks == StoreRecord(
             StoreRecord(blocks0, free + 1, InvalidRecord(), superBlock.totalInodes, superBlock.totalBlocks),
             free + 1, InvalidRecord().(count := 1, flag := MARKED_FOR_WRITE), superBlock.totalInodes, superBlock.totalBlocks)
      else
        e.inode.Valid() && e.inode.Record() == found.(count := Short(found.count + 1))
        && (resident != {} ==> e.inode in resident)
        && superBlock.disk.blocks == StoreRecord(blocks0, n,
             found.(count := Short(found.count + 1), flag := found.flag | MARKED_FOR_WRITE), superBlock.totalInodes, superBlock.totalBlocks)
    }

    /**
     * What falloc leaves for an open that started from `os`, with `e` the
     * entry it handed back, null when none: no entry when it refuses or
     * waits, else an entry of count 1 in the mode for the name's number;
     * the table and directory as Listed says, the device and inodes as
     * Stored says.
     */
    ghost predicate Fallocated(os: OpenStart, filename: seq<jchar>, mode: string, e: FileTableEntry?)
      reads this, fileTable, dir, dir.fsize, dir.fnames, superBlock, superBlock.disk
      reads os.resident, set ino | ino in os.resident :: ino.direct
      reads if e != null then {e, e.inode, e.inode.direct} else {}
      requires dir.fnames.Length1 == MAX_CHARS && forall k | 0 <= k < |os.rows| :: |os.rows[k]| == MAX_CHARS
      requires AllBlocks(os.blocks) && |os.found.direct| == DIRECT_SIZE
    {
      && (if os.refused || os.waits then e == null
          else
            e != null && e.mode == mode && e.count == 1
            && e.iNumber == (if os.n == -1 then os.free + 1 else os.n))
      && Listed(os.n, filename, os.table, os.fsize, os.rows, e)
      && Stored(os.n, os.free, os.found, os.blocks, os.resident, e)
    }

    /**
     * The whole outcome of open from `os`: the answer `r` is -1 when falloc
     * refuses, a wait when it waits, else a slot index; `e`, the entry
     * installed, is as Fallocated says.
     */
    ghost predicate Opened(os: OpenStart, filename: seq<jchar>, mode: string, r: Wait<int>, e: FileTableEntry?)
      reads this, fileTable, dir, dir.fsize, dir.fnames, superBlock, superBlock.disk
      reads os.resident, set ino | ino in os.resident :: ino.direct
      reads if e != null then {e, e.inode, e.inode.direct} else {}
      requires dir.fnames.Length1 == MAX_CHARS && forall k | 0 <= k < |os.rows| :: |os.rows[k]| == MAX_CHARS
      requires AllBlocks(os.blocks) && |os.found.direct| == DIRECT_SIZE
    {
      && (if os.refused then r == Done(ERROR) else if os.waits then r == Blocked else r.Done? && r.value != ERROR)
      && Fallocated(os, filename, mode, e)
    }

    /**
     * What falloc leaves, as FileTable.Falloc states it: for a name the
     * directory does not know, Created; for one it knows, the directory as
     * it was and Shares over the inode falloc finds.
     */
    twostate predicate Falloced(filename: seq<jchar>, mode: string, n: int, new r: Wait<FileTableEntry?>)
      requires old(Valid()) && Valid() && n == old(dir.Namei(filename))
      reads this, fileTable, dir, dir.fsize, dir.fnames, superBlock, superBlock.disk, fileTable.Holding(n)
      reads if r.Done? && r.value != null then {r.value, r.value.inode, r.value.inode.direct} else {}
    {
      if n == -1 then fileTable.Created(filename, mode, superBlock, r)
      else
        dir.fsize[..] == old(dir.fsize[..]) && RowsOf(dir.fnames) == old(RowsOf(dir.fnames))
        && fileTable.table == old(fileTable.table)
        && fileTable.Shares(n, mode, superBlock, old(fileTable.Found(n, superBlock)), r)
    }

    /** falloc as open sees it: refused, waiting, or a fresh entry of count 1 for the name's inode. */
    method Admit(filename: seq<jchar>, mode: string) returns (r: Wait<FileTableEntry?>)
      requires Valid()
      modifies fileTable, dir.fsize, dir.fnames, superBlock.disk, fileTable.Resident(filename)
      ensures Valid() && Falloced(filename, mode, old(dir.Namei(filename)), r)
      ensures var os, e := old(OpenStartOf(filename)), if r.Done? then r.value else null;
        (if os.refused then r == Done(null) else if os.waits then r == Blocked
         else r.Done? && e != null && fresh(e) && e.inode.Valid())
        && Fallocated(os, filename, mode, e) && (e != null && os.resident == {} ==> fresh(e.inode))
    {
      r := fileTable.Falloc(filename, mode, superBlock);
    }

    /**
     * open: -1 for a mode other than r, w, w+ and a, for a thread without a
     * table and when every slot from 3 on is taken, all before falloc runs;
     * -1 when falloc refuses, a wait when it waits; otherwise the new entry
     * goes into the lowest free slot from 3 on, whose index is the answer.
     */
    method Open(filename: seq<jchar>, mode: string, ftEnt: array?<FileTableEntry?>) returns (r: Wait<int>)
      requires Valid() && Descriptors(ftEnt)
      modifies ftEnt, fileTable, dir.fsize, dir.fnames, superBlock.disk, fileTable.Resident(filename)
      ensures Valid() && Descriptors(ftEnt)
      ensures !OpenMode(mode) || ftEnt == null || !old(HasFree(ftEnt)) ==>
        r == Done(ERROR) && unchanged(fileTable, dir.fsize, dir.fnames, superBlock.disk)
        && (ftEnt != null ==> unchanged(ftEnt))
      ensures r.Done? && r.value != ERROR ==>
        ftEnt != null && 3 <= r.value < ftEnt.Length && old(ftEnt[r.value]) == null
        && (forall k | 3 <= k < r.value :: old(ftEnt[k]) != null)
        && ftEnt[..] == old(ftEnt[..])[r.value := ftEnt[r.value]]
      ensures OpenMode(mode) && ftEnt != null && old(HasFree(ftEnt)) ==>
        var os, e := old(OpenStartOf(filename)), EntryAt(ftEnt, r);
        Opened(os, filename, mode, r, e) && (e == null ==> ftEnt[..] == old(ftEnt[..]))
        && (e != null ==> fresh(e) && (os.resident == {} ==> fresh(e.inode)))
    {
      if !OpenMode(mode) || ftEnt == null {
        return Done(ERROR);
      }
      var fd := LowestFree(ftEnt);
      if fd >= ftEnt.Length {
        assert !HasFree(ftEnt);
        return Done(ERROR);
      }
      assert HasFree(ftEnt) by { assert ftEnt[fd] == null; }
      r := Place(filename, mode, ftEnt, fd);
    }

    /** The end of open once the lowest free slot `fd` is chosen: falloc, and its entry into that slot. */
    method Place(filename: seq<jchar>, mode: string, ftEnt: array<FileTableEntry?>, fd: int) returns (r: Wait<int>)
      requires Valid() && Descriptors(ftEnt) && 3 <= fd < ftEnt.Length && ftEnt[fd] == null
      requires forall k | 3 <= k < fd :: ftEnt[k] != null
      modifies ftEnt, fileTable, dir.fsize, dir.fnames, superBlock.disk, fileTable.Resident(filename)
      ensures Valid() && Descriptors(ftEnt)
      ensures r.Done? && r.value != ERROR ==>
        3 <= r.value < ftEnt.Length && old(ftEnt[r.value]) == null
        && (forall k | 3 <= k < r.value :: old(ftEnt[k]) != null)
        && ftEnt[..] == old(ftEnt[..])[r.value := ftEnt[r.value]]
      ensures var os, e := old(OpenStartOf(filename)), EntryAt(ftEnt, r);
        Opened(os, filename, mode, r, e) && (e == null ==> ftEnt[..] == old(ftEnt[..]))
        && (e != null ==> fresh(e) && (os.resident == {} ==> fresh(e.inode)))
    {
      ghost var os := OpenStartOf(filename);
      var entry := Admit(filename, mode);
      ghost var e := if entry.Done? then entry.value else null;
      assert Fallocated(os, filename, mode, e);
      if entry.Blocked? {
        r := Blocked;
      } else if entry.value == null {
        r := Done(ERROR);
      } else {
        ftEnt[fd] := entry.value;
        r := Done(fd);
      }
    }

    /** format: formatDisk, then 0, or -1 when its progress output divides by zero. */
    method Format(fileCount: int32) returns (r: int)
      requires Valid()
      modifies superBlock, superBlock.disk
      ensures Valid() && superBlock.totalBlocks == old(superBlock.totalBlocks)
      ensures !(0 <= fileCount <= MAX_INODES) ==>
        r == SUCCESS && superBlock.Record() == old(superBlock.Record()) && superBlock.disk.blocks == old(superBlock.disk.blocks)
      ensures 0 <= fileCount <= MAX_INODES ==>
        var threw := FormatThrows(superBlock.totalBlocks, FirstFreeBlock(fileCount));
        r == (if threw then ERROR else SUCCESS)
        && superBlock.totalInodes == fileCount && superBlock.freeList == FirstFreeBlock(fileCount)
        && superBlock.disk.blocks == FormatImage(old(superBlock.disk.blocks), fileCount, threw)
    {
      var threw := superBlock.FormatDisk(fileCount);
      r := if threw then ERROR else SUCCESS;
    }

    /**
     * size: -1 for a bad descriptor; otherwise the length. While a writer
     * holds the inode, waitUntilAccessable calls wait() without holding the
     * inode's monitor, which throws IllegalMonitorStateException.
     */
    method Size(fd: int, ftEnt: array?<FileTableEntry?>) returns (r: Outcome<int>)
      ensures var e := Descriptor(ftEnt, fd);
        if e == null then r == Returned(ERROR)
        else if e.inode.flag & MARKED_FOR_WRITE != 0 then r == Threw
        else r == Returned(e.inode.length)
    {
      var e := Descriptor(ftEnt, fd);
      if e == null {
        return Returned(ERROR);
      }
      if e.inode.flag & MARKED_FOR_WRITE != 0 {
        return Threw;
      }
      return Returned(e.inode.length);
    }

    /**
     * seek: -1 for fd < 3, an unknown whence or a bad descriptor, with
     * nothing changed; otherwise the clamped target becomes the seek pointer
     * and is the answer.
     */
    method Seek(fd: int, offset: int32, whence: int, ftEnt: array?<FileTableEntry?>) returns (r: int)
      modifies Descriptor(ftEnt, fd)
      ensures var e := Descriptor(ftEnt, fd);
        if e == null || !(whence == SEEK_SET || whence == SEEK_CUR || whence == SEEK_END) then
          r == ERROR && (e != null ==> e.seekPtr == old(e.seekPtr))
        else
          r == e.seekPtr
          && e.seekPtr == BoundSeekPtr(SeekTarget(whence, offset, old(e.seekPtr), e.inode.length), e.inode.length)
      ensures var e := Descriptor(ftEnt, fd); e != null ==> e.count == old(e.count)
    {
      if fd < 3 || !(whence == SEEK_SET || whence == SEEK_CUR || whence == SEEK_END) {
        return ERROR;
      }
      var entry := Descriptor(ftEnt, fd);
      if entry == null {
        return ERROR;
      }
      var target := SeekTarget(whence, offset, entry.seekPtr, entry.inode.length);
      entry.seekPtr := BoundSeekPtr(target, entry.inode.length);
      return entry.seekPtr;
    }

    /** The inode delete(inumber) works on: that of the first table entry with the number, or null. */
    function Current(inumber: int): Inode?
      reads this, fileTable
    {
      var i := IndexOf(fileTable.table, inumber);
      if i == -1 then null else fileTable.table[i].inode
    }

    /** What delete(inumber) may mark for death. */
    function Doomed(inumber: int): set<object>
      reads this, fileTable
    {
      if Current(inumber) == null then {} else {Current(inumber)}
    }

    /** The table, the directory and the superblock as values: what ffree and delete change. */
    ghost function Now(): (s: Snapshot)
      reads this, fileTable, dir, dir.fsize, dir.fnames, superBlock, superBlock.disk
      requires Valid()
      ensures Whole(s)
    {
      Snapshot(fileTable.table, dir.fsize[..], RowsOf(dir.fnames), superBlock.Record(), superBlock.disk.blocks)
    }

    /** The fields of the inode delete(inumber) works on, or those of an unused inode when there is none. */
    ghost function CurrentRecord(inumber: int): (r: InodeRecord)
      reads this, fileTable, fileTable.dir, fileTable.dir.fsize
      reads set e | e in fileTable.table :: e.inode, set e | e in fileTable.table :: e.inode.direct
      requires fileTable.Valid()
      ensures |r.direct| == DIRECT_SIZE
    {
      var i := IndexOf(fileTable.table, inumber);
      if i == -1 then InvalidRecord() else fileTable.table[i].inode.Record()
    }

    /**
     * What delete(inumber) does to the state `s` it starts from, `cur` being
     * the inode it finds and `was` that inode's fields: -1 for inumber < 1 or
     * no table entry; a mark for death and a wait while the inode is open;
     * otherwise the end of delete once the inode is free, as Purged says.
     */
    ghost predicate Deleted(inumber: int, cur: Inode?, was: InodeRecord, s: Snapshot, r: Wait<Outcome<int>>)
      reads this, fileTable, dir, dir.fsize, dir.fnames, superBlock, superBlock.disk
      reads if cur == null then {} else {cur, cur.direct}
      requires Valid() && Whole(s) && |was.direct| == DIRECT_SIZE && (cur != null ==> cur.Valid())
    {
      if inumber < 1 || cur == null then
        r == Done(Returned(ERROR)) && Now() == s
      else if was.count > 0 then
        r == Blocked && Now() == s && cur.Record() == was.(flag := MarkDeath(was.flag))
      else
        Purged(inumber, was, s, r) && cur.Record() == was
    }

    /**
     * The end of delete from state `s`, once the inode with fields `was` has
     * no opens. The name iname gives for inumber - 1 (none: a
     * NullPointerException in compare); the first slot that compares equal
     * to it, which the scan always finds (the row of that name matches
     * itself), is emptied; the inode's blocks go back as Reclaim says (the
     * indirect block unreadable: -1); then the table entry at position
     * inumber - 1, not necessarily the one for inumber, is removed (no such
     * position: an exception), and 0.
     */
    ghost predicate Purged(inumber: int, was: InodeRecord, s: Snapshot, r: Wait<Outcome<int>>)
      reads this, fileTable, dir, dir.fsize, dir.fnames, superBlock, superBlock.disk
      requires Valid() && Whole(s) && |was.direct| == DIRECT_SIZE && 1 <= inumber
    {
      var name := InameIn(s.rows, Short(inumber - 1));
      if name.None? then r == Done(Threw) && Now() == s
      else Unlinked(inumber, was, s, FindFrom(s.rows, name.value, 0), r)
    }

    /** delete after it found `slot`: the slot emptied, the blocks of the inode handed back, the table entry removed. */
    ghost predicate Unlinked(inumber: int, was: InodeRecord, s: Snapshot, slot: int, r: Wait<Outcome<int>>)
      reads this, fileTable, dir, dir.fsize, dir.fnames, superBlock, superBlock.disk
      requires Valid() && Whole(s) && |was.direct| == DIRECT_SIZE && 1 <= inumber && 0 <= slot < |s.rows|
    {
      var rc := Reclaim(Allocator(s.sb.freeList, s.blocks), s.sb.totalBlocks, was.direct, was.indirect);
      dir.fsize[..] == s.fsize[slot := 0] && RowsOf(dir.fnames) == s.rows[slot := s.rows[slot][0 := 0]]
      && superBlock.State() == rc.after
      && superBlock.totalBlocks == s.sb.totalBlocks && superBlock.totalInodes == s.sb.totalInodes
      && if !rc.ok then r == Done(Returned(ERROR)) && fileTable.table == s.table
         else if inumber - 1 >= |s.table| then r == Done(Threw) && fileTable.table == s.table
         else r == Done(Returned(SUCCESS)) && fileTable.table == RemoveAt(s.table, inumber - 1)
    }

    /** delete(inumber). */
    method Delete(inumber: int) returns (r: Wait<Outcome<int>>)
      requires Valid()
      modifies fileTable, Doomed(inumber), dir.fsize, dir.fnames, superBlock, superBlock.disk
      ensures Valid() && Deleted(inumber, old(Current(inumber)), old(CurrentRecord(inumber)), old(Now()), r)
    {
      if inumber < 1 {
        return Done(Returned(ERROR));
      }
      var i := fileTable.Search(inumber);
      if i == -1 {
        return Done(Returned(ERROR));
      }
      var current := fileTable.table[i].inode;
      if current.count > 0 {
        current.MarkForDeath();
        return Blocked;
      }
      r := Purge(inumber, current);
    }

    /** delete(filename): delete of the number namei gives. */
    method DeleteFile(filename: seq<jchar>) returns (r: Wait<Outcome<int>>)
      requires Valid()
      modifies fileTable, Doomed(dir.Namei(filename)), dir.fsize, dir.fnames, superBlock, superBlock.disk
      ensures Valid()
      ensures var n := old(dir.Namei(filename)); Deleted(n, old(Current(n)), old(CurrentRecord(n)), old(Now()), r)
    {
      r := Delete(dir.Namei(filename));
    }

    /** delete once the inode `cur` of inumber has no opens. */
    method Purge(inumber: int, cur: Inode) returns (r: Wait<Outcome<int>>)
      requires Valid() && cur.Valid() && 1 <= inumber
      modifies fileTable, dir.fsize, dir.fnames, superBlock, superBlock.disk
      ensures Valid() && Purged(inumber, old(cur.Record()), old(Now()), r)
    {
      var name := dir.Iname(Short(inumber - 1));
      if name.None? {
        return Done(Threw);
      }
      var slot := MatchingSlot(name.value);
      r := Unlink(inumber, cur, slot);
    }

    /** delete from the slot it found on. */
    method Unlink(inumber: int, cur: Inode, slot: int) returns (r: Wait<Outcome<int>>)
      requires Valid() && cur.Valid() && 1 <= inumber && 0 <= slot < dir.fsize.Length
      modifies fileTable, dir.fsize, dir.fnames, superBlock, superBlock.disk
      ensures Valid() && Unlinked(inumber, old(cur.Record()), old(Now()), slot, r)
    {
      ClearSlot(slot);
      var ok := ReclaimBlocks(superBlock, cur);
      if !ok {
        r := Done(Returned(ERROR));
      } else if inumber - 1 >= |fileTable.table| {
        r := Done(Threw);
      } else {
        RemoveAtKeeps(fileTable.table, inumber - 1);
        fileTable.table := RemoveAt(fileTable.table, inumber - 1);
        r := Done(Returned(SUCCESS));
      }
    }

    /** The directory loop of delete: the first slot whose row compares equal to `name`, or -1. */
    method MatchingSlot(name: seq<jchar>) returns (slot: int)
      requires dir.Valid()
      ensures slot == FindFrom(RowsOf(dir.fnames), name, 0)
    {
      var i := 0;
      while i < dir.fsize.Length
        invariant 0 <= i <= dir.fsize.Length
        invariant FindFrom(RowsOf(dir.fnames), name, i) == FindFrom(RowsOf(dir.fnames), name, 0)
      {
        if Compare(name, RowOf(dir.fnames, i)) == 0 {
          return i;
        }
        i := i + 1;
      }
      return -1;
    }

    /** delete's update of the slot it found: size 0 and a 0 first char, the rest of the row kept. */
    method ClearSlot(slot: int)
      requires dir.Valid() && 0 <= slot < dir.fsize.Length
      modifies dir.fsize, dir.fnames
      ensures dir.Valid()
      ensures dir.fsize[..] == old(dir.fsize[..])[slot := 0]
      ensures RowsOf(dir.fnames) == old(RowsOf(dir.fnames))[slot := old(RowsOf(dir.fnames))[slot][0 := 0]]
    {
      ghost var rows := RowsOf(dir.fnames);
      dir.fsize[slot] := 0;
      dir.fnames[slot, 0] := 0;
      forall k | 0 <= k < dir.fnames.Length0
        ensures RowOf(dir.fnames, k) == rows[slot := rows[slot][0 := 0]][k]
      {
        assert RowOf(dir.fnames, k) == if k == slot then rows[slot][0 := 0] else rows[k];
      }
      assert RowsOf(dir.fnames) == rows[slot := rows[slot][0 := 0]];
    }

    /** The directory and the superblock's counters as they are in `s`. */
    ghost predicate FilesKept(s: Snapshot)
      reads this, dir, dir.fsize, dir.fnames, superBlock
      requires dir.fnames.Length1 == MAX_CHARS
    {
      dir.fsize[..] == s.fsize && RowsOf(dir.fnames) == s.rows && superBlock.Record() == s.sb
    }

    /** The open-file table's entries and their inodes: all that ffree and delete may change in it. */
    function TableFrame(): set<object>
      reads this, fileTable
    {
      (set x: FileTableEntry | x in fileTable.table :: x as object) + (set x: FileTableEntry | x in fileTable.table :: x.inode as object)
    }

    /** ffree's frame lies in the table's. */
    lemma HolderInFrame(e: FileTableEntry)
      ensures fileTable.Holder(e) <= TableFrame()
    {
      var k := IndexOf(fileTable.table, e.iNumber);
      if k != -1 {
        var x := fileTable.table[k];
        assert x as object in TableFrame() && x.inode as object in TableFrame();
      }
    }

    /** What close of `e` leaves alone in table `t`: every entry and inode, and `e`, other than e's inode and ffree's entry `t[i]` with its inode. */
    function Bystanders(t: seq<FileTableEntry>, e: FileTableEntry, i: int): set<object>
    {
      ((set x: FileTableEntry | x in t :: x as object) + (set x: FileTableEntry | x in t :: x.inode as object) + {e as object})
      - (if 0 <= i < |t| then {t[i] as object, t[i].inode as object} else {}) - {e.inode as object}
    }

    /** delete's frame lies in the table's. */
    lemma DoomedInFrame(inumber: int)
      ensures Doomed(inumber) <= TableFrame()
    {
      var k := IndexOf(fileTable.table, inumber);
      if k != -1 {
        var x := fileTable.table[k];
        assert x.inode as object in TableFrame();
      }
    }

    /**
     * close: -1 for a bad descriptor. Otherwise the inode's count goes down
     * by one, and ffree takes another one off the inode of the first table
     * entry with the number, which is most often the same inode: two
     * decrements per close. A wait while that inode is locked; -1 when no
     * entry has the number. When the count fell below 1 on an inode marked
     * for death, the answer is delete's and the descriptor stays in place;
     * otherwise the descriptor is emptied and the answer is 0.
     */
    method Close(fd: int, ftEnt: array?<FileTableEntry?>) returns (r: Wait<Outcome<int>>)
      requires Valid() && Descriptors(ftEnt)
      modifies ftEnt, OpenFrame(ftEnt, fd), TableFrame(), fileTable, dir.fsize, dir.fnames, superBlock, superBlock.disk
      ensures Valid() && Descriptors(ftEnt)
      ensures old(Descriptor(ftEnt, fd)) == null ==>
        r == Done(Returned(ERROR)) && fileTable.table == old(fileTable.table) && (ftEnt != null ==> unchanged(ftEnt))
      ensures var e := old(Descriptor(ftEnt, fd));
        e != null ==>
          var c := Short(old(e.inode.count) - 1);
          var i := IndexOf(old(fileTable.table), e.iNumber);
          if i == -1 then
            r == Done(Returned(ERROR)) && e.inode.count == c && ftEnt[..] == old(ftEnt[..])
            && fileTable.table == old(fileTable.table)
          else if !MayWrite(old(fileTable.table[i].inode.LockState())) then
            r == Blocked && e.inode.count == c && ftEnt[..] == old(ftEnt[..]) && fileTable.table == old(fileTable.table)
          else if c < 1 && old(e.inode.IsDying()) then
            ftEnt[..] == old(ftEnt[..])
          else
            var h := old(fileTable.table[i]);
            r == Done(Returned(SUCCESS)) && ftEnt[..] == old(ftEnt[..])[fd := null]
            && h.count == Int32(old(h.count) - 1)
            && h.inode.count == Short((if h.inode == e.inode then c else old(h.inode.count)) - 1)
            && fileTable.table == (if h.inode.count == 0 then RemoveAt(old(fileTable.table), i) else old(fileTable.table))
      ensures old(Descriptor(ftEnt, fd)) == null ==> Now() == old(Now()) && unchanged(old(TableFrame()))
      ensures var e := old(Descriptor(ftEnt, fd));
        e != null ==>
          var cs := old(StartOf(e));
          !(cs.at != -1 && cs.writable && Short(cs.count - 1) < 1 && cs.dying) ==> ClosedAside(e, cs)
    {
      var e := Descriptor(ftEnt, fd);
      if e == null {
        return Done(Returned(ERROR));
      }
      r := CloseEntry(fd, ftEnt, e, StartOf(e), ftEnt[..]);
    }

    /** The state close of `e` starts from. */
    ghost function StartOf(e: FileTableEntry): (cs: CloseStart)
      reads this, fileTable, dir, dir.fsize, dir.fnames, superBlock, superBlock.disk, e, e.inode, e.inode.direct
      reads set x | x in fileTable.table :: x, set x | x in fileTable.table :: x.inode
      reads set x | x in fileTable.table :: x.inode.direct
      requires Valid() && e.inode.Valid()
      ensures Starts(e, cs) && -1 <= cs.at < |cs.table| && Whole(cs.snap) && |cs.record.direct| == DIRECT_SIZE
      ensures cs.at != -1 ==> cs.table[cs.at].inode.Valid() && |cs.holderRecord.direct| == DIRECT_SIZE
    {
      var t0 := fileTable.table;
      var i := IndexOf(t0, e.iNumber);
      assert i != -1 ==> t0[i] in t0;
      CloseStart(t0, i, i != -1 && MayWrite(t0[i].inode.LockState()), if i != -1 then t0[i].count else 0,
                 if i != -1 then t0[i].inode.count else 0, e.inode.count, e.inode.IsDying(), e.inode.Record(),
                 if i != -1 then t0[i].inode.Record() else InvalidRecord(), Now())
    }

    /**
     * What close of `e` starts from, as `cs` records it: the table, ffree's
     * position in it, whether its inode is free to write, that entry's count,
     * its inode's count and fields, e's inode count and fields, whether that
     * inode is marked for death, and the rest of the state.
     */
    ghost predicate Starts(e: FileTableEntry, cs: CloseStart)
      reads this, fileTable, dir, dir.fsize, dir.fnames, superBlock, superBlock.disk, e, e.inode, e.inode.direct
      reads set x | x in fileTable.table :: x, set x | x in fileTable.table :: x.inode
      reads set x | x in fileTable.table :: x.inode.direct
      requires Valid() && e.inode.Valid()
    {
      cs.table == fileTable.table && cs.at == IndexOf(cs.table, e.iNumber)
      && (cs.at != -1 ==>
            cs.writable == MayWrite(cs.table[cs.at].inode.LockState()) && cs.holderCount == cs.table[cs.at].count
            && cs.holderInodeCount == cs.table[cs.at].inode.count && cs.holderRecord == cs.table[cs.at].inode.Record())
      && cs.count == e.inode.count && cs.dying == e.inode.IsDying() && cs.record == e.inode.Record() && cs.snap == Now()
    }

    /**
     * close of `e` other than the last close of an inode marked for death,
     * from `cs`: the directory and the superblock's counters are kept, and so
     * is every other entry and inode of the table; e's inode differs only in
     * its count, one lower; the device is kept unless ffree gets past its
     * wait, and then ffree's entry is released and its inode written back as
     * Released says.
     */
    twostate predicate ClosedAside(e: FileTableEntry, cs: CloseStart)
      requires dir.fnames.Length1 == MAX_CHARS && Whole(cs.snap) && -1 <= cs.at < |cs.table| && e.inode.Valid()
      requires cs.at != -1 ==> cs.table[cs.at].inode.Valid() && |cs.holderRecord.direct| == DIRECT_SIZE
      requires |cs.record.direct| == DIRECT_SIZE
      reads this, fileTable, dir, dir.fsize, dir.fnames, superBlock, superBlock.disk, e.inode, e.inode.direct
      reads Bystanders(cs.table, e, cs.at)
      reads if cs.at != -1 then {cs.table[cs.at], cs.table[cs.at].inode, cs.table[cs.at].inode.direct} else {}
    {
      var t0, i, c := cs.table, cs.at, Short(cs.count - 1);
      var pre := if i != -1 && t0[i].inode == e.inode then cs.record.(count := c) else cs.holderRecord;
      && FilesKept(cs.snap) && unchanged(Bystanders(t0, e, i))
      && (i == -1 || t0[i].inode != e.inode ==> e.inode.Record() == cs.record.(count := c))
      && (i == -1 || !cs.writable ==> superBlock.disk.blocks == cs.snap.blocks)
      && (i != -1 && !cs.writable ==> unchanged(t0[i]) && t0[i].inode.Record() == pre)
      && (i != -1 && cs.writable ==> fileTable.Released(t0[i], superBlock, cs.holderCount, pre, cs.snap.blocks))
    }

    /**
     * close of the entry `e` in slot fd, as Close states it, from `cs` and
     * the descriptor table `slots`. The decrement of e's inode count is the
     * first step of CloseDying and CloseLive; the test here is on the count
     * it leaves.
     */
    method CloseEntry(fd: int, ftEnt: array<FileTableEntry?>, e: FileTableEntry, ghost cs: CloseStart,
                      ghost slots: seq<FileTableEntry?>)
      returns (r: Wait<Outcome<int>>)
      requires Valid() && Descriptors(ftEnt) && 3 <= fd < ftEnt.Length && ftEnt[fd] == e
      requires e.inode.Valid() && Starts(e, cs) && slots == ftEnt[..]
      modifies ftEnt, OpenFrame(ftEnt, fd), TableFrame(), fileTable, dir.fsize, dir.fnames, superBlock, superBlock.disk
      ensures Valid() && Descriptors(ftEnt)
      ensures var t0, i, c := cs.table, cs.at, Short(cs.count - 1);
          if i == -1 then
            r == Done(Returned(ERROR)) && e.inode.count == c && ftEnt[..] == slots && fileTable.table == t0
          else if !cs.writable then
            r == Blocked && e.inode.count == c && ftEnt[..] == slots && fileTable.table == t0
          else if c < 1 && cs.dying then
            ftEnt[..] == slots
          else
            var h := t0[i];
            r == Done(Returned(SUCCESS)) && ftEnt[..] == slots[fd := null]
            && h.count == Int32(cs.holderCount - 1)
            && h.inode.count == Short((if h.inode == e.inode then c else cs.holderInodeCount) - 1)
            && fileTable.table == (if h.inode.count == 0 then RemoveAt(t0, i) else t0)
      ensures !(cs.at != -1 && cs.writable && Short(cs.count - 1) < 1 && cs.dying) ==> ClosedAside(e, cs)
    {
      if Short(e.inode.count - 1) < 1 && e.inode.IsDying() {
        r := CloseDying(e, cs);
      } else {
        HolderInFrame(e);
        r := CloseLive(fd, ftEnt, e, cs, slots);
      }
    }

    /**
     * The first steps of close for both branches: the decrement of e's inode
     * count, then ffree: false when no entry has e's number, a wait while its
     * inode is locked, true once it released it.
     */
    method Unhold(e: FileTableEntry, ghost cs: CloseStart) returns (freed: Wait<bool>)
      requires Valid() && e.inode.Valid() && Starts(e, cs)
      modifies e.inode, fileTable, fileTable.Holder(e), superBlock.disk
      ensures Valid()
      ensures var t0, i, c := cs.table, cs.at, Short(cs.count - 1);
        if i == -1 then freed == Done(false) && fileTable.table == t0 && e.inode.count == c
        else if !cs.writable then freed == Blocked && fileTable.table == t0 && e.inode.count == c
        else
          var h := t0[i];
          freed == Done(true) && h.count == Int32(cs.holderCount - 1)
          && h.inode.count == Short((if h.inode == e.inode then c else cs.holderInodeCount) - 1)
          && fileTable.table == (if h.inode.count == 0 then RemoveAt(t0, i) else t0)
      ensures ClosedAside(e, cs)
    {
      e.inode.count := Short(e.inode.count - 1);
      freed := FreeAside(e, cs);
    }

    /** ffree after the decrement: the entry's inode already holds its count one lower, and nothing else has moved since `cs`. */
    method FreeAside(e: FileTableEntry, ghost cs: CloseStart) returns (freed: Wait<bool>)
      requires Valid() && e.inode.Valid() && cs.table == fileTable.table && cs.at == IndexOf(cs.table, e.iNumber)
      requires cs.at != -1 ==>
        cs.writable == MayWrite(cs.table[cs.at].inode.LockState()) && cs.holderCount == cs.table[cs.at].count
      requires cs.at != -1 && cs.table[cs.at].inode != e.inode ==> cs.holderInodeCount == cs.table[cs.at].inode.count
      requires Whole(cs.snap) && FilesKept(cs.snap) && superBlock.disk.blocks == cs.snap.blocks
      requires |cs.record.direct| == DIRECT_SIZE && e.inode.Record() == cs.record.(count := Short(cs.count - 1))
      requires cs.at != -1 ==>
        (|cs.holderRecord.direct| == DIRECT_SIZE && cs.table[cs.at].inode.Valid()
         && cs.table[cs.at].inode.Record()
            == (if cs.table[cs.at].inode == e.inode then cs.record.(count := Short(cs.count - 1)) else cs.holderRecord))
      modifies fileTable, fileTable.Holder(e), superBlock.disk
      ensures Valid()
      ensures var t0, i, c := cs.table, cs.at, Short(cs.count - 1);
        if i == -1 then freed == Done(false) && fileTable.table == t0 && e.inode.count == c
        else if !cs.writable then freed == Blocked && fileTable.table == t0 && e.inode.count == c
        else
          var h := t0[i];
          freed == Done(true) && h.count == Int32(cs.holderCount - 1)
          && h.inode.count == Short((if h.inode == e.inode then c else cs.holderInodeCount) - 1)
          && fileTable.table == (if h.inode.count == 0 then RemoveAt(t0, i) else t0)
      ensures ClosedAside(e, cs)
    {
      freed := fileTable.Ffree(e, superBlock);
    }

    /** close once the count falls below 1 on a dying inode: the decrement and ffree, then delete of the number. */
    method CloseDying(e: FileTableEntry, ghost cs: CloseStart) returns (r: Wait<Outcome<int>>)
      requires Valid() && e.inode.Valid() && Starts(e, cs)
      modifies e.inode, TableFrame(), fileTable, dir.fsize, dir.fnames, superBlock, superBlock.disk
      ensures Valid()
      ensures (cs.at == -1 ==> r == Done(Returned(ERROR)) && fileTable.table == cs.table)
        && (cs.at != -1 && !cs.writable ==> r == Blocked && fileTable.table == cs.table)
      ensures cs.at == -1 || !cs.writable ==> e.inode.count == Short(cs.count - 1) && ClosedAside(e, cs)
    {
      HolderInFrame(e);
      var freed := Unhold(e, cs);
      if freed.Blocked? {
        return Blocked;
      }
      if !freed.value {
        return Done(Returned(ERROR));
      }
      RemoveAtKeeps(cs.table, cs.at);
      DoomedInFrame(e.iNumber);
      assert TableFrame() <= old(TableFrame());
      r := Delete(e.iNumber);
    }

    /** close of an inode that stays: the decrement and ffree, and the descriptor emptied when ffree succeeds. */
    method CloseLive(fd: int, ftEnt: array<FileTableEntry?>, e: FileTableEntry, ghost cs: CloseStart,
                     ghost slots: seq<FileTableEntry?>)
      returns (r: Wait<Outcome<int>>)
      requires Valid() && Descriptors(ftEnt) && 3 <= fd < ftEnt.Length && ftEnt[fd] == e
      requires e.inode.Valid() && Starts(e, cs) && slots == ftEnt[..]
      modifies ftEnt, e.inode, fileTable, fileTable.Holder(e), superBlock.disk
      ensures Valid() && Descriptors(ftEnt)
      ensures var t0, i, c := cs.table, cs.at, Short(cs.count - 1);
        if i == -1 then
          r == Done(Returned(ERROR)) && ftEnt[..] == slots && fileTable.table == t0 && e.inode.count == c
        else if !cs.writable then
          r == Blocked && ftEnt[..] == slots && fileTable.table == t0 && e.inode.count == c
        else
          var h := t0[i];
          r == Done(Returned(SUCCESS)) && ftEnt[..] == slots[fd := null]
          && h.count == Int32(cs.holderCount - 1)
          && h.inode.count == Short((if h.inode == e.inode then c else cs.holderInodeCount) - 1)
          && fileTable.table == (if h.inode.count == 0 then RemoveAt(t0, i) else t0)
      ensures ClosedAside(e, cs)
    {
      var freed := Unhold(e, cs);
      if freed.Blocked? {
        r := Blocked;
      } else if freed.value {
        ftEnt[fd] := null;
        r := Done(Returned(SUCCESS));
      } else {
        r := Done(Returned(ERROR));
      }
    }

    /**
     * read: -1 for fd < 3, a null buffer or a bad descriptor, and for a
     * seek pointer at or past the end or a mode other than r and w+; a wait
     * while a writer holds the inode. Otherwise waitRead, the transfer
     * ReadBody describes, and finishRead unless the transfer threw.
     */
    method Read(fd: int, buffer: array?<byte>, ftEnt: array?<FileTableEntry?>) returns (r: Wait<Outcome<int>>)
      requires Valid() && Descriptors(ftEnt) && (buffer != null ==> buffer.Length < TWO_31)
      modifies OpenFrame(ftEnt, fd), buffer
      ensures var e := Descriptor(ftEnt, fd);
        if e == null || buffer == null then
          r == Done(Returned(ERROR)) && (buffer != null ==> buffer[..] == old(buffer[..]))
          && (e != null ==> e.seekPtr == old(e.seekPtr) && e.inode.LockState() == old(e.inode.LockState()))
        else if old(e.seekPtr) >= e.inode.length || !ReadMode(e.mode) || !MayRead(old(e.inode.LockState())) then
          r == (if old(e.seekPtr) >= e.inode.length || !ReadMode(e.mode) then Done(Returned(ERROR)) else Blocked)
          && buffer[..] == old(buffer[..]) && e.seekPtr == old(e.seekPtr) && e.inode.LockState() == old(e.inode.LockState())
        else
          var b := ReadBody(superBlock.disk.blocks, e.inode.direct[..], e.inode.indirect as int, e.inode.length,
                            old(e.seekPtr), old(buffer[..]));
          var held := AcquireRead(old(e.inode.LockState()));
          r == Done(b.answer) && buffer[..] == b.buffer && e.seekPtr == b.seekPtr
          && e.inode.LockState() == (if b.answer.Threw? then held else ReleaseRead(held))
      ensures var e := Descriptor(ftEnt, fd);
        e != null ==>
          e.count == old(e.count) && e.inode.length == old(e.inode.length) && e.inode.count == old(e.inode.count)
          && e.inode.direct[..] == old(e.inode.direct[..]) && e.inode.indirect == old(e.inode.indirect)
    {
      if fd < 3 || buffer == null {
        return Done(Returned(ERROR));
      }
      var e := Descriptor(ftEnt, fd);
      if e == null {
        return Done(Returned(ERROR));
      }
      if e.seekPtr >= e.inode.length || !ReadMode(e.mode) {
        return Done(Returned(ERROR));
      }
      if !MayRead(e.inode.LockState()) {
        return Blocked;
      }
      e.inode.WaitRead();
      var answer := ReadTransfer(superBlock.disk, e, buffer);
      if answer.Returned? {
        e.inode.FinishRead();
      }
      r := Done(answer);
    }

    /**
     * write: -1 for fd < 3, a null buffer, a bad descriptor or a mode other
     * than w, w+ and a; a wait while a reader or writer holds the inode.
     * Otherwise waitWrite, the transfer WriteBody describes, and finishWrite
     * unless the transfer threw.
     */
    method Write(fd: int, buffer: array?<byte>, ftEnt: array?<FileTableEntry?>) returns (r: Wait<Outcome<int>>)
      requires Valid() && Descriptors(ftEnt) && (buffer != null ==> buffer.Length < TWO_31)
      modifies OpenFrame(ftEnt, fd), superBlock, superBlock.disk
      ensures Valid()
      ensures var e := Descriptor(ftEnt, fd);
        if e == null || buffer == null then
          r == Done(Returned(ERROR)) && superBlock.State() == old(superBlock.State())
          && (e != null ==> StateOf(superBlock, e) == old(StateOf(superBlock, e)) && e.inode.LockState() == old(e.inode.LockState()))
        else if !WriteMode(e.mode) || !MayWrite(old(e.inode.LockState())) then
          r == (if !WriteMode(e.mode) then Done(Returned(ERROR)) else Blocked)
          && StateOf(superBlock, e) == old(StateOf(superBlock, e)) && e.inode.LockState() == old(e.inode.LockState())
        else
          var w := WriteBody(old(StateOf(superBlock, e)), superBlock.totalInodes, buffer[..]);
          var held := AcquireWrite(old(e.inode.LockState()));
          r == Done(w.answer) && StateOf(superBlock, e) == w.st
          && e.inode.LockState() == (if w.answer.Threw? then held else ReleaseWrite(held))
      ensures superBlock.totalBlocks == old(superBlock.totalBlocks) && superBlock.totalInodes == old(superBlock.totalInodes)
      ensures var e := Descriptor(ftEnt, fd); e != null ==> e.count == old(e.count) && e.inode.count == old(e.inode.count)
    {
      if fd < 3 || buffer == null {
        return Done(Returned(ERROR));
      }
      var e := Descriptor(ftEnt, fd);
      if e == null {
        return Done(Returned(ERROR));
      }
      if !WriteMode(e.mode) {
        return Done(Returned(ERROR));
      }
      if !MayWrite(e.inode.LockState()) {
        return Blocked;
      }
      e.inode.WaitWrite();
      var answer := WriteTransfer(superBlock, e, buffer);
      if answer.Returned? {
        e.inode.FinishWrite();
      }
      r := Done(answer);
    }
  }
}

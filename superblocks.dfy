/**
 * The superblock: the three counters kept in block 0 (totalBlocks,
 * totalInodes, freeList) and the free-block list threaded through the first
 * four bytes of every free block.
 *
 * The Java class keeps the counters in static fields; here they are the fields
 * of one `SuperBlock` object that the other components are handed.
 */
module SuperBlocks {
  import opened JavaInts
  import opened Codec
  import opened Device
  import opened Options
  import opened Inodes

  const DEFAULT_INODES: int := 64
  const NO_MORE_BLOCKS: int := -1
  /** The largest inode count formatDisk accepts: blockSize / 2 - 1. */
  const MAX_INODES: int := 255

  function Min(a: int, b: int): int
  {
    if a <= b then a else b
  }

  // ---------------------------------------------------------------------------
  // Block 0

  /** The counters kept in block 0. */
  datatype SuperRecord = SuperRecord(totalBlocks: int32, totalInodes: int32, freeList: int32)

  /** The first twelve bytes of block 0. */
  function HeaderBytes(m: SuperRecord): (s: seq<byte>)
    ensures |s| == 12
  {
    IntBytes(m.totalBlocks) + IntBytes(m.totalInodes) + IntBytes(m.freeList)
  }

  /** The counters as the constructor reads them from a block 0. */
  function ReadHeader(b0: seq<byte>): SuperRecord
    requires |b0| == BLOCK_SIZE
  {
    SuperRecord(GetInt(b0, 0), GetInt(b0, 4), GetInt(b0, 8))
  }

  /** Reading the counters back after writing them over any block 0. */
  lemma {:induction false} HeaderRoundTrip(b0: seq<byte>, m: SuperRecord)
    requires |b0| == BLOCK_SIZE
    ensures ReadHeader(Splice(b0, 0, HeaderBytes(m))) == m
  {
    var s := Splice(b0, 0, HeaderBytes(m));
    assert s[0..12] == HeaderBytes(m);
    assert s[0..4] == HeaderBytes(m)[0..4] == IntBytes(m.totalBlocks);
    assert s[4..8] == HeaderBytes(m)[4..8] == IntBytes(m.totalInodes);
    assert s[8..12] == HeaderBytes(m)[8..12] == IntBytes(m.freeList);
    GetIntOf(s, 0, m.totalBlocks);
    GetIntOf(s, 4, m.totalInodes);
    GetIntOf(s, 8, m.freeList);
  }

  /**
   * The counters the constructor settles on: those on the device when they
   * describe a formatted disk of this size, else 64 inodes and free list at 5;
   * all zero when block 0 cannot be read.
   */
  function Mount(blocks: seq<seq<byte>>, diskSize: int32): (m: SuperRecord)
    requires AllBlocks(blocks)
    ensures |blocks| > 0 ==> m.totalBlocks == diskSize
  {
    if |blocks| == 0 then SuperRecord(0, 0, 0)
    else
      var m := ReadHeader(blocks[0]);
      if m.totalBlocks == diskSize && m.totalInodes > 0 && m.freeList > 1 then m
      else SuperRecord(diskSize, DEFAULT_INODES, DEFAULT_INODES / INODES_PER_BLOCK + 1)
  }

  /** The device after sync (and after the constructor): the counters written over block 0's first twelve bytes. */
  function Synced(blocks: seq<seq<byte>>, m: SuperRecord): (r: seq<seq<byte>>)
    requires AllBlocks(blocks)
    ensures AllBlocks(r) && |r| == |blocks|
  {
    if |blocks| == 0 then blocks else blocks[0 := Splice(blocks[0], 0, HeaderBytes(m))]
  }

  /** Syncing counters that describe a formatted disk and mounting again finds the same counters. */
  lemma SyncThenMount(blocks: seq<seq<byte>>, m: SuperRecord)
    requires AllBlocks(blocks) && |blocks| > 0
    requires m.totalInodes > 0 && m.freeList > 1
    ensures Mount(Synced(blocks, m), m.totalBlocks) == m
  {
    HeaderRoundTrip(blocks[0], m);
  }

  /** Mounting is stable: a second mount keeps what the first one wrote. */
  lemma MountTwice(blocks: seq<seq<byte>>, diskSize: int32)
    requires AllBlocks(blocks) && |blocks| > 0
    ensures var m := Mount(blocks, diskSize);
      Mount(Synced(blocks, m), diskSize) == m
  {
    var m := Mount(blocks, diskSize);
    if m != ReadHeader(blocks[0]) {
      assert m.totalInodes == 64 && m.freeList == 5;
    }
    SyncThenMount(blocks, m);
  }

  // ---------------------------------------------------------------------------
  // The free list as a value

  /** The allocator state: the head of the free list and the device. */
  datatype Allocator = Allocator(freeList: int32, blocks: seq<seq<byte>>)

  /** What getNextFreeBlock hands out and the state it leaves. */
  datatype Grant = Grant(block: short, after: Allocator)

  /** What returnBlock answers and the state it leaves. */
  datatype Release = Release(result: int, after: Allocator)

  /** A buffer after cread of block `i`: the block, or the fresh zero buffer when the read fails. */
  function BlockOrZeros(blocks: seq<seq<byte>>, i: int): (s: seq<byte>)
    requires AllBlocks(blocks)
    ensures |s| == BLOCK_SIZE
  {
    if 0 <= i < |blocks| then blocks[i] else Zeros(BLOCK_SIZE)
  }

  /** A free block as formatDisk and returnBlock write it: the next pointer, then zeros. */
  function FreeBlockImage(next: int32): (s: seq<byte>)
    ensures |s| == BLOCK_SIZE
  {
    IntBytes(next) + Zeros(BLOCK_SIZE - 4)
  }

  /** The next pointer getNextFreeBlock reads out of a block, narrowed to a short. */
  function NextOf(blocks: seq<seq<byte>>, b: int): short
    requires AllBlocks(blocks) && 0 <= b < |blocks|
  {
    Short(GetInt(blocks[b], 0))
  }

  lemma NextOfFreeBlockImage(blocks: seq<seq<byte>>, b: int, next: int32)
    requires AllBlocks(blocks) && 0 <= b < |blocks| && blocks[b] == FreeBlockImage(next)
    ensures NextOf(blocks, b) == Short(next)
  {
    assert blocks[b][0..4] == IntBytes(next);
    GetIntOf(blocks[b], 0, next);
  }

  /**
   * getNextFreeBlock: hand out the head and zero it; the new head is the
   * pointer the head stored, or head + 1 when that pointer is 0 (the test
   * against totalInodes compares 0, so it only fires when totalInodes <= 0).
   */
  function Allocate(a: Allocator, totalInodes: int32): (g: Grant)
    requires AllBlocks(a.blocks)
    ensures AllBlocks(g.after.blocks) && |g.after.blocks| == |a.blocks|
  {
    var head := Short(a.freeList);
    if head == NO_MORE_BLOCKS then Grant(-1, a)
    else
      var next := Short(GetInt(BlockOrZeros(a.blocks, a.freeList), 0));
      var blocks := Store(a.blocks, a.freeList, Zeros(BLOCK_SIZE));
      var freeList :=
        if next == 0 then (if next >= totalInodes then NO_MORE_BLOCKS else Int32(a.freeList + 1))
        else next;
      Grant(head, Allocator(freeList, blocks))
  }

  /** returnBlock: push `b` unless it is negative or beyond totalBlocks (totalBlocks itself is accepted). */
  function Free(a: Allocator, totalBlocks: int32, b: short): (r: Release)
    requires AllBlocks(a.blocks)
    ensures AllBlocks(r.after.blocks) && |r.after.blocks| == |a.blocks|
  {
    if b < 0 || b > totalBlocks then Release(-1, a)
    else Release(b, Allocator(b, Store(a.blocks, b, FreeBlockImage(a.freeList))))
  }

  /**
   * LIFO: returning block `b` and allocating at once hands `b` back, zeroed,
   * and restores the previous head, as long as that head was not 0.
   */
  lemma ReturnThenAllocate(a: Allocator, totalInodes: int32, b: short)
    requires AllBlocks(a.blocks) && 0 <= b < |a.blocks| < TWO_31
    requires -TWO_15 <= a.freeList < TWO_15 && a.freeList != 0
    ensures Free(a, |a.blocks|, b).result == b
    ensures Allocate(Free(a, |a.blocks|, b).after, totalInodes)
         == Grant(b, Allocator(a.freeList, a.blocks[b := Zeros(BLOCK_SIZE)]))
  {
    var r := Free(a, |a.blocks|, b);
    NextOfFreeBlockImage(r.after.blocks, b, a.freeList);
    assert Store(r.after.blocks, b, Zeros(BLOCK_SIZE)) == a.blocks[b := Zeros(BLOCK_SIZE)];
  }

  /** The proviso matters: with head 0 the allocation after a return moves the head to `b + 1` instead. */
  lemma ReturnThenAllocateFromZeroHead(a: Allocator, totalInodes: int32, b: short)
    requires AllBlocks(a.blocks) && 0 <= b < |a.blocks| < TWO_31 && a.freeList == 0 && totalInodes > 0
    ensures Allocate(Free(a, |a.blocks|, b).after, totalInodes)
         == Grant(b, Allocator(b + 1, a.blocks[b := Zeros(BLOCK_SIZE)]))
  {
    var r := Free(a, |a.blocks|, b);
    NextOfFreeBlockImage(r.after.blocks, b, 0);
    assert Store(r.after.blocks, b, Zeros(BLOCK_SIZE)) == a.blocks[b := Zeros(BLOCK_SIZE)];
  }

  /**
   * returnBlock(totalBlocks) is accepted though no such block exists: nothing
   * is written, and the next allocation hands out that nonexistent block.
   */
  lemma ReturnPastEndIsAccepted(a: Allocator, totalInodes: int32)
    requires AllBlocks(a.blocks) && |a.blocks| < TWO_15 && totalInodes > 0
    ensures Free(a, |a.blocks|, |a.blocks|) == Release(|a.blocks|, Allocator(|a.blocks|, a.blocks))
    ensures Allocate(Free(a, |a.blocks|, |a.blocks|).after, totalInodes).block == |a.blocks|
  {
  }

  /**
   * The free list from `head` is exactly `chain`: distinct blocks of the
   * device other than block 0, each storing the next one and the last storing
   * -1, all small enough for the short arithmetic of getNextFreeBlock.
   */
  ghost predicate IsChain(blocks: seq<seq<byte>>, head: int, chain: seq<int>)
    requires AllBlocks(blocks)
  {
    (if chain == [] then head == NO_MORE_BLOCKS else head == chain[0])
    && (forall i | 0 <= i < |chain| :: 1 <= chain[i] < |blocks| && chain[i] < TWO_15)
    && (forall i, j | 0 <= i < j < |chain| :: chain[i] != chain[j])
    && (forall i | 0 <= i < |chain| ::
          NextOf(blocks, chain[i]) == if i + 1 < |chain| then chain[i + 1] else NO_MORE_BLOCKS)
  }

  /** Each block of a well-formed list points at the next one. */
  lemma ChainNext(blocks: seq<seq<byte>>, head: int, chain: seq<int>, i: int)
    requires AllBlocks(blocks) && IsChain(blocks, head, chain) && 0 <= i < |chain|
    ensures 1 <= chain[i] < |blocks|
    ensures NextOf(blocks, chain[i]) == if i + 1 < |chain| then chain[i + 1] else NO_MORE_BLOCKS
  {
  }

  /**
   * Allocating from a well-formed free list hands out its first block, zeroes
   * it, and leaves the rest of the list well formed; an empty list answers -1
   * and changes nothing.
   */
  lemma AllocateFromChain(a: Allocator, totalInodes: int32, chain: seq<int>)
    requires AllBlocks(a.blocks) && IsChain(a.blocks, a.freeList, chain)
    ensures var g := Allocate(a, totalInodes);
      (chain == [] ==> g == Grant(-1, a))
      && (chain != [] ==>
            g.block == chain[0]
            && g.after.blocks == a.blocks[chain[0] := Zeros(BLOCK_SIZE)]
            && IsChain(g.after.blocks, g.after.freeList, chain[1..]))
  {
    if chain != [] {
      var g := Allocate(a, totalInodes);
      var head := chain[0];
      ChainNext(a.blocks, a.freeList, chain, 0);
      assert BlockOrZeros(a.blocks, a.freeList) == a.blocks[head];
      assert g.after.freeList == if 1 < |chain| then chain[1] else NO_MORE_BLOCKS;
      assert g.after.blocks == a.blocks[head := Zeros(BLOCK_SIZE)];
      var rest := chain[1..];
      forall i | 0 <= i < |rest|
        ensures NextOf(g.after.blocks, rest[i]) == if i + 1 < |rest| then rest[i + 1] else NO_MORE_BLOCKS
      {
        assert rest[i] == chain[i + 1] != head;
        assert g.after.blocks[rest[i]] == a.blocks[rest[i]];
        ChainNext(a.blocks, a.freeList, chain, i + 1);
      }
      assert forall i | 0 <= i < |rest| :: rest[i] == chain[i + 1];
      assert forall i, j | 0 <= i < j < |rest| :: rest[i] != rest[j];
      assert IsChain(g.after.blocks, g.after.freeList, rest);
    }
  }

  /** The blocks `k` successive getNextFreeBlock calls hand out, and the state after them. */
  function AllocateMany(a: Allocator, totalInodes: int32, k: nat): (r: (seq<int>, Allocator))
    requires AllBlocks(a.blocks)
    ensures |r.0| == k && AllBlocks(r.1.blocks)
    decreases k
  {
    if k == 0 then ([], a)
    else
      var g := Allocate(a, totalInodes);
      var rest := AllocateMany(g.after, totalInodes, k - 1);
      ([g.block as int] + rest.0, rest.1)
  }

  /** Successive allocations from a well-formed free list hand out its blocks in order. */
  lemma {:induction false} AllocateManyFromChain(a: Allocator, totalInodes: int32, chain: seq<int>, k: nat)
    requires AllBlocks(a.blocks) && IsChain(a.blocks, a.freeList, chain) && k <= |chain|
    ensures AllocateMany(a, totalInodes, k).0 == chain[..k]
    decreases k
  {
    if k > 0 {
      AllocateFromChain(a, totalInodes, chain);
      var g := Allocate(a, totalInodes);
      AllocateManyFromChain(g.after, totalInodes, chain[1..], k - 1);
      assert chain[..k] == [chain[0]] + chain[1..][..k - 1];
    }
  }

  /** Hence no block is handed out twice, and each is a real block of the device other than block 0. */
  lemma NoBlockIssuedTwice(a: Allocator, totalInodes: int32, chain: seq<int>, k: nat)
    requires AllBlocks(a.blocks) && IsChain(a.blocks, a.freeList, chain) && k <= |chain|
    ensures var got := AllocateMany(a, totalInodes, k).0;
      (forall i, j | 0 <= i < j < k :: got[i] != got[j])
      && (forall i | 0 <= i < k :: 1 <= got[i] < |a.blocks|)
  {
    AllocateManyFromChain(a, totalInodes, chain, k);
  }

  /** Returning a block that is not on the free list puts it at the front of a still well-formed list. */
  lemma ReturnExtendsChain(a: Allocator, chain: seq<int>, b: short)
    requires AllBlocks(a.blocks) && |a.blocks| < TWO_31 && IsChain(a.blocks, a.freeList, chain)
    requires 1 <= b < |a.blocks| && b !in chain
    ensures Free(a, |a.blocks|, b).result == b
    ensures IsChain(Free(a, |a.blocks|, b).after.blocks, b, [b as int] + chain)
  {
    var r := Free(a, |a.blocks|, b);
    var blocks := r.after.blocks;
    assert blocks == a.blocks[b := FreeBlockImage(a.freeList)];
    var c := [b as int] + chain;
    NextOfFreeBlockImage(blocks, b, a.freeList);
    assert NextOf(blocks, b) == if 1 < |c| then c[1] else NO_MORE_BLOCKS;
    forall i | 0 <= i < |c|
      ensures 1 <= c[i] < |blocks| && c[i] < TWO_15
    {
      if i > 0 {
        assert c[i] == chain[i - 1];
      }
    }
    forall i, j | 0 <= i < j < |c|
      ensures c[i] != c[j]
    {
      assert c[j] == chain[j - 1] && chain[j - 1] in chain;
      if i > 0 {
        assert c[i] == chain[i - 1];
      }
    }
    forall i | 0 <= i < |c|
      ensures NextOf(blocks, c[i]) == if i + 1 < |c| then c[i + 1] else NO_MORE_BLOCKS
    {
      if i > 0 {
        assert c[i] == chain[i - 1] != b;
        assert blocks[c[i]] == a.blocks[c[i]];
        ChainNext(a.blocks, a.freeList, chain, i - 1);
      }
    }
    assert c != [] && b == c[0];
    assert forall i | 0 <= i < |c| :: 1 <= c[i] < |blocks| && c[i] < TWO_15;
    assert forall i, j | 0 <= i < j < |c| :: c[i] != c[j];
    assert forall i | 0 <= i < |c| :: NextOf(blocks, c[i]) == if i + 1 < |c| then c[i + 1] else NO_MORE_BLOCKS;
    assert IsChain(blocks, b, c);
  }

  // ---------------------------------------------------------------------------
  // What formatDisk writes

  /** The first block after the inode blocks: one block per 16 inodes, rounded up, after block 0. */
  function FirstFreeBlock(n: int): int
    requires n >= 0
  {
    if n % INODES_PER_BLOCK == 0 then n / INODES_PER_BLOCK + 1 else n / INODES_PER_BLOCK + 2
  }

  /** The inode blocks sit between block 0 and the free list, and no block is wasted. */
  lemma InodeRegion(n: int)
    requires n >= 0
    ensures FirstFreeBlock(n) >= 1
    ensures forall i | 0 <= i < n :: BlockOf(i) < FirstFreeBlock(n)
    ensures n > 0 ==> BlockOf(n - 1) == FirstFreeBlock(n) - 1
  {
  }

  /**
   * Inode number totalInodes passes every guard of toDisk, yet when
   * totalInodes is a multiple of 16 it lives in the first free block.
   */
  lemma LastInodeNumberInFreeRegion(n: int, totalBlocks: int)
    requires n >= 0 && n % INODES_PER_BLOCK == 0 && FirstFreeBlock(n) <= totalBlocks
    ensures Placeable(n, n, totalBlocks) && BlockOf(n) == FirstFreeBlock(n)
  {
  }

  /** Block 0 as formatDisk writes it: the counters, then zeros. */
  function HeaderBlock(m: SuperRecord): (s: seq<byte>)
    ensures |s| == BLOCK_SIZE
  {
    Splice(Zeros(BLOCK_SIZE), 0, HeaderBytes(m))
  }

  /** The inode buffer after toBlockData of a fresh (invalid) inode into slots 0 .. k-1 of a zero block. */
  function InodeImage(k: nat): (s: seq<byte>)
    requires k <= INODES_PER_BLOCK
    ensures |s| == BLOCK_SIZE
  {
    ImageOf(k, InvalidRecord())
  }

  /** A zero block with `r` placed by toBlockData into slots 0 .. k-1. */
  function ImageOf(k: nat, r: InodeRecord): (s: seq<byte>)
    requires k <= INODES_PER_BLOCK && |r.direct| == DIRECT_SIZE
    ensures |s| == BLOCK_SIZE
  {
    if k == 0 then Zeros(BLOCK_SIZE)
    else PlaceRecord(ImageOf(k - 1, r), (k - 1) * 32, r)
  }

  /** Every filled slot of the inode buffer holds the invalid record. */
  lemma InodeImageSlot(k: nat, s: nat)
    requires s < k <= INODES_PER_BLOCK
    ensures InodeImage(k)[s * 32..s * 32 + 32] == EncodeRecord(InvalidRecord())
  {
    ImageSlot(k, s, InvalidRecord());
  }

  /** Every filled slot holds the placed record. */
  lemma {:induction false} ImageSlot(k: nat, s: nat, r: InodeRecord)
    requires s < k <= INODES_PER_BLOCK && |r.direct| == DIRECT_SIZE
    ensures ImageOf(k, r)[s * 32..s * 32 + 32] == EncodeRecord(r)
  {
    if s < k - 1 {
      ImageSlot(k - 1, s, r);
      PlacedKeeps(ImageOf(k - 1, r), (k - 1) * 32, s * 32, r);
    }
  }

  /** A record placed at `off` leaves an earlier record's 32 bytes at `lo` as they were. */
  lemma PlacedKeeps(prev: seq<byte>, off: int, lo: int, r: InodeRecord)
    requires 0 <= lo && lo + INODE_SIZE <= off && off + INODE_SIZE <= |prev| && |r.direct| == DIRECT_SIZE
    ensures PlaceRecord(prev, off, r)[lo..lo + INODE_SIZE] == prev[lo..lo + INODE_SIZE]
  {
    var next := PlaceRecord(prev, off, r);
    assert forall j | lo <= j < lo + INODE_SIZE :: next[j] == prev[j];
  }

  /** Slot `s` of a buffer filled up to `k` loads back as an invalid inode. */
  lemma InodeImageLoads(k: nat, s: nat)
    requires s < k <= INODES_PER_BLOCK
    ensures DecodeAt(InodeImage(k), s * 32) == InvalidRecord()
  {
    var img := InodeImage(k);
    var off := s * 32;
    InodeImageSlot(k, s);
    RecordRoundTrip(img, off, InvalidRecord());
    DecodeAtFrame(PlaceRecord(img, off, InvalidRecord()), img, off);
  }

  /** Once all sixteen slots are filled, another toBlockData of an invalid inode changes nothing. */
  lemma InodeImageFull(s: nat)
    requires s < INODES_PER_BLOCK
    ensures PlaceRecord(InodeImage(INODES_PER_BLOCK), s * 32, InvalidRecord()) == InodeImage(INODES_PER_BLOCK)
  {
    var img := InodeImage(INODES_PER_BLOCK);
    var lo := s * 32;
    InodeImageSlot(INODES_PER_BLOCK, s);
    var placed := PlaceRecord(img, lo, InvalidRecord());
    assert placed[lo..lo + 32] == img[lo..lo + 32];
    forall j | lo <= j < lo + 32
      ensures placed[j] == img[j]
    {
      assert placed[j] == placed[lo..lo + 32][j - lo];
      assert img[j] == img[lo..lo + 32][j - lo];
    }
    assert placed == img;
  }

  /** Inode 0's record covers the counters formatDisk left in the buffer. */
  lemma FirstRecordCoversHeader(m: SuperRecord)
    ensures PlaceRecord(HeaderBlock(m), 0, InvalidRecord()) == InodeImage(1)
  {
    var a := PlaceRecord(HeaderBlock(m), 0, InvalidRecord());
    var b := InodeImage(1);
    assert forall j | INODE_SIZE <= j < BLOCK_SIZE :: a[j] == b[j];
    assert a[..INODE_SIZE] == b[..INODE_SIZE];
    assert a == a[..INODE_SIZE] + a[INODE_SIZE..];
    assert b == b[..INODE_SIZE] + b[INODE_SIZE..];
  }

  /** The device after the first `i` iterations of formatDisk's inode loop (block 2 at i = 16, the last block at the end). */
  function InodeWrites(blocks: seq<seq<byte>>, n: int, i: int): (r: seq<seq<byte>>)
    requires AllBlocks(blocks) && 0 <= i <= n
    ensures AllBlocks(r) && |r| == |blocks|
  {
    var b1 := if i > INODES_PER_BLOCK then Store(blocks, 2, InodeImage(INODES_PER_BLOCK)) else blocks;
    if i == n && n >= 1 then Store(b1, BlockOf(n - 1), InodeImage(Min(n, INODES_PER_BLOCK))) else b1
  }

  /** One more iteration of the inode loop writes the buffer to block i / 16 + 1 when i = 16 or i is the last inode. */
  lemma InodeWritesStep(blocks: seq<seq<byte>>, n: int, i: int)
    requires AllBlocks(blocks) && 0 <= i < n
    ensures InodeWrites(blocks, n, i + 1)
         == if i == INODES_PER_BLOCK || i + 1 == n
            then Store(InodeWrites(blocks, n, i), i / INODES_PER_BLOCK + 1, InodeImage(Min(i + 1, INODES_PER_BLOCK)))
            else InodeWrites(blocks, n, i)
  {
  }

  /** The device after iteration i of the inode loop, whether or not the buffer's block exists. */
  lemma InodeDiskStep(header: seq<seq<byte>>, n: int, i: int, before: seq<seq<byte>>, written: seq<byte>,
                      after: seq<seq<byte>>)
    requires AllBlocks(header) && 0 <= i < n
    requires before == InodeWrites(header, n, i)
    requires |header| >= 1 ==> written == InodeImage(Min(i + 1, INODES_PER_BLOCK))
    requires after == if i == INODES_PER_BLOCK || i + 1 == n then Store(before, i / INODES_PER_BLOCK + 1, written) else before
    ensures after == InodeWrites(header, n, i + 1)
  {
    InodeWritesStep(header, n, i);
    if |header| == 0 {
      assert Store(before, i / INODES_PER_BLOCK + 1, written) == before;
      assert Store(before, i / INODES_PER_BLOCK + 1, InodeImage(Min(i + 1, INODES_PER_BLOCK))) == before;
    }
  }

  /** The buffer after toBlockData of a fresh inode in iteration i of the inode loop. */
  lemma InodeBufferStep(m: SuperRecord, i: int, n: int, totalBlocks: int, buf: seq<byte>)
    requires 0 <= i < n && totalBlocks >= 1
    requires buf == if i == 0 then HeaderBlock(m) else InodeImage(Min(i, INODES_PER_BLOCK))
    ensures (if Placeable(i, n, totalBlocks) then PlaceRecord(buf, OffsetOf(i), InvalidRecord()) else buf)
         == InodeImage(Min(i + 1, INODES_PER_BLOCK))
  {
    if i == 0 {
      assert Placeable(i, n, totalBlocks) && OffsetOf(i) == 0;
      FirstRecordCoversHeader(m);
    } else if i >= INODES_PER_BLOCK {
      assert OffsetOf(i) == i % INODES_PER_BLOCK * 32;
      InodeImageFull(i % INODES_PER_BLOCK);
    } else {
      assert Placeable(i, n, totalBlocks);
      InodeBufferFills(i);
    }
  }

  /** Within the first inode block, toBlockData of inode i fills slot i of the buffer. */
  lemma InodeBufferFills(i: int)
    requires 1 <= i < INODES_PER_BLOCK
    ensures PlaceRecord(InodeImage(i), OffsetOf(i), InvalidRecord()) == InodeImage(i + 1)
  {
    assert OffsetOf(i) == i * 32;
  }

  /** The pointer formatDisk stores in free block `b`. */
  function FormatNext(b: int, totalBlocks: int): int32
    requires -TWO_31 <= b < TWO_31 - 1
  {
    if b + 1 >= totalBlocks then -1 else b + 1
  }

  /** The device after formatDisk's free-list loop has written blocks [freeList, c). */
  function FreeWrites(blocks: seq<seq<byte>>, freeList: int, c: int): (r: seq<seq<byte>>)
    requires AllBlocks(blocks) && |blocks| < TWO_31
    ensures AllBlocks(r) && |r| == |blocks|
  {
    seq(|blocks|, b requires 0 <= b < |blocks| =>
      if freeList <= b < c then FreeBlockImage(FormatNext(b, |blocks|)) else blocks[b])
  }

  /** The progress output divides by totalBlocks / 10, which is 0 on a disk of fewer than ten blocks. */
  predicate FormatThrows(totalBlocks: int, freeList: int)
  {
    freeList < totalBlocks && totalBlocks / 10 == 0
  }

  /**
   * The device after formatDisk(n): counters in block 0, the buffered inode
   * blocks, then the free list [freeList, totalBlocks) (only its first block
   * when the progress output throws).
   */
  function FormatImage(blocks: seq<seq<byte>>, n: int, threw: bool): (r: seq<seq<byte>>)
    requires AllBlocks(blocks) && |blocks| < TWO_31 && 0 <= n <= MAX_INODES
    ensures AllBlocks(r) && |r| == |blocks|
  {
    var fl := FirstFreeBlock(n);
    var header := Store(blocks, 0, HeaderBlock(SuperRecord(|blocks|, n, fl)));
    FreeWrites(InodeWrites(header, n, n), fl, if threw then fl + 1 else |blocks|)
  }

  /** formatDisk leaves the superblock counters in block 0, so a later mount keeps them. */
  lemma MountAfterFormat(blocks: seq<seq<byte>>, n: int, threw: bool)
    requires AllBlocks(blocks) && 0 < |blocks| < TWO_31 && 0 < n <= MAX_INODES
    ensures Mount(FormatImage(blocks, n, threw), |blocks|) == SuperRecord(|blocks|, n, FirstFreeBlock(n))
  {
    var m := SuperRecord(|blocks|, n, FirstFreeBlock(n));
    HeaderRoundTrip(Zeros(BLOCK_SIZE), m);
    InodeRegion(n);
    assert FormatImage(blocks, n, threw)[0] == HeaderBlock(m);
  }

  /** Where formatDisk's free list lies, each block holds the pointer to the next. */
  lemma FormatImageFreeBlock(blocks: seq<seq<byte>>, n: int, threw: bool, b: int)
    requires AllBlocks(blocks) && |blocks| < TWO_31 && 0 <= n <= MAX_INODES
    requires FirstFreeBlock(n) <= b < (if threw then FirstFreeBlock(n) + 1 else |blocks|)
    requires b < |blocks|
    ensures FormatImage(blocks, n, threw)[b] == FreeBlockImage(FormatNext(b, |blocks|))
  {
  }

  /** A format that gets through its free-list loop leaves [freeList, totalBlocks) as a well-formed free list. */
  lemma FormatBuildsFreeList(blocks: seq<seq<byte>>, n: int)
    requires AllBlocks(blocks) && 0 <= n <= MAX_INODES
    requires FirstFreeBlock(n) < |blocks| <= TWO_15
    ensures IsChain(FormatImage(blocks, n, false), FirstFreeBlock(n),
                    seq(|blocks| - FirstFreeBlock(n), i => FirstFreeBlock(n) + i))
  {
    var img := FormatImage(blocks, n, false);
    var fl := FirstFreeBlock(n);
    var chain := seq(|blocks| - fl, i => fl + i);
    assert forall i | 0 <= i < |chain| :: chain[i] == fl + i;
    forall i | 0 <= i < |chain|
      ensures NextOf(img, chain[i]) == if i + 1 < |chain| then chain[i + 1] else NO_MORE_BLOCKS
    {
      FormatLink(blocks, n, fl + i);
    }
    assert forall i, j | 0 <= i < j < |chain| :: chain[i] != chain[j];
    assert IsChain(img, fl, chain);
  }

  /** Each free block formatDisk writes points at the block after it, and the last at -1. */
  lemma FormatLink(blocks: seq<seq<byte>>, n: int, b: int)
    requires AllBlocks(blocks) && 0 <= n <= MAX_INODES
    requires FirstFreeBlock(n) <= b < |blocks| <= TWO_15
    ensures NextOf(FormatImage(blocks, n, false), b) == if b + 1 < |blocks| then b + 1 else NO_MORE_BLOCKS
  {
    FormatImageFreeBlock(blocks, n, false, b);
    NextOfFreeBlockImage(FormatImage(blocks, n, false), b, FormatNext(b, |blocks|));
  }

  /** With at most sixteen inodes, every inode formatDisk sets up loads back as an invalid inode. */
  lemma FormatInodesLoadInvalid(blocks: seq<seq<byte>>, n: int, threw: bool, i: int)
    requires AllBlocks(blocks) && 1 < |blocks| < TWO_31 && 1 <= n <= INODES_PER_BLOCK
    requires 0 <= i < n
    ensures LoadRecord(FormatImage(blocks, n, threw), i, n, |blocks|) == InvalidRecord()
  {
    FormatFirstInodeBlock(blocks, n, threw);
    LoadsInvalid(FormatImage(blocks, n, threw), n, i);
  }

  /** With at most sixteen inodes, formatDisk leaves block 1 as the buffer of n invalid inodes. */
  lemma FormatFirstInodeBlock(blocks: seq<seq<byte>>, n: int, threw: bool)
    requires AllBlocks(blocks) && 1 < |blocks| < TWO_31 && 1 <= n <= INODES_PER_BLOCK
    ensures FormatImage(blocks, n, threw)[1] == InodeImage(n)
  {
    InodeRegion(n);
  }

  /** A device whose block 1 holds n invalid inodes loads each of them back as invalid. */
  lemma LoadsInvalid(img: seq<seq<byte>>, n: int, i: int)
    requires AllBlocks(img) && 1 < |img| && 1 <= n <= INODES_PER_BLOCK && 0 <= i < n
    requires img[1] == InodeImage(n)
    ensures LoadRecord(img, i, n, |img|) == InvalidRecord()
  {
    assert BlockOf(i) == 1 && OffsetOf(i) == i * 32;
    InodeImageLoads(n, i);
  }

  /** With more than sixteen inodes, formatDisk never writes block 1, so inodes 0 to 15 keep whatever was there. */
  lemma FormatSkipsFirstInodeBlock(blocks: seq<seq<byte>>, n: int, threw: bool)
    requires AllBlocks(blocks) && 1 < |blocks| < TWO_31 && INODES_PER_BLOCK < n <= MAX_INODES
    ensures FormatImage(blocks, n, threw)[1] == blocks[1]
  {
    InodeRegion(n);
  }

  // ---------------------------------------------------------------------------
  // The superblock object

  class SuperBlock {
    var totalBlocks: int32
    var totalInodes: int32
    var freeList: int32
    const disk: Disk

    /** totalBlocks is the size of the device. */
    ghost predicate Valid()
      reads this, disk
    {
      disk.Valid() && totalBlocks == |disk.blocks|
    }

    function Record(): SuperRecord
      reads this
    {
      SuperRecord(totalBlocks, totalInodes, freeList)
    }

    function State(): Allocator
      reads this, disk
    {
      Allocator(freeList, disk.blocks)
    }

    /** SuperBlock(diskSize): adopt or reset the counters in block 0 and write them back. */
    constructor (disk: Disk, diskSize: int32)
      requires disk.Valid() && diskSize == |disk.blocks|
      modifies disk
      ensures Valid() && this.disk == disk
      ensures Record() == Mount(old(disk.blocks), diskSize)
      ensures disk.blocks == Synced(old(disk.blocks), Record())
    {
      this.disk := disk;
      new;
      var block := new byte[BLOCK_SIZE](_ => 0);
      var status := disk.ReadInto(0, block);
      if status < 0 {
        Invalidate();
        return;
      }
      totalBlocks := GetInt(block[..], 0);
      totalInodes := GetInt(block[..], 4);
      freeList := GetInt(block[..], 8);
      if totalBlocks == diskSize && totalInodes > 0 && freeList > 1 {
      } else {
        totalBlocks := diskSize;
        totalInodes := DEFAULT_INODES;
        freeList := totalInodes / INODES_PER_BLOCK + 1;
      }
      WriteHeader(block);
      var _ := disk.Write(0, block[..]);
    }

    /** int2bytes of the three counters into the first twelve bytes of a buffer. */
    method WriteHeader(block: array<byte>)
      requires block.Length == BLOCK_SIZE
      modifies block
      ensures block[..] == Splice(old(block[..]), 0, HeaderBytes(Record()))
    {
      ghost var before := block[..];
      WriteInt(block, 0, totalBlocks);
      WriteInt(block, 4, totalInodes);
      SpliceExtend(before, 0, IntBytes(totalBlocks), IntBytes(totalInodes));
      WriteInt(block, 8, freeList);
      SpliceExtend(before, 0, IntBytes(totalBlocks) + IntBytes(totalInodes), IntBytes(freeList));
    }

    method Invalidate()
      modifies this
      ensures Record() == SuperRecord(0, 0, 0)
    {
      totalBlocks := 0;
      totalInodes := 0;
      freeList := 0;
    }

    /** sync: rewrite the counters in block 0, keeping the rest of the block. */
    method Sync()
      requires Valid()
      modifies disk
      ensures Valid()
      ensures disk.blocks == Synced(old(disk.blocks), Record())
    {
      var data := new byte[BLOCK_SIZE](_ => 0);
      var _ := disk.ReadInto(0, data);
      WriteHeader(data);
      var _ := disk.Write(0, data[..]);
    }

    /** getNextFreeBlock. */
    method GetNextFreeBlock() returns (b: short)
      requires Valid()
      modifies this, disk
      ensures Valid() && totalBlocks == old(totalBlocks) && totalInodes == old(totalInodes)
      ensures Allocate(old(State()), totalInodes) == Grant(b, State())
    {
      var retVal := Short(freeList);
      if retVal == NO_MORE_BLOCKS {
        return -1;
      }
      var data := new byte[BLOCK_SIZE](_ => 0);
      var _ := disk.ReadInto(freeList, data);
      assert data[..] == BlockOrZeros(disk.blocks, freeList);
      var nextFree := Short(GetInt(data[..], 0));
      for i := 0 to BLOCK_SIZE
        modifies data
        invariant forall k | 0 <= k < i :: data[k] == 0
      {
        data[i] := 0;
      }
      assert data[..] == Zeros(BLOCK_SIZE);
      var _ := disk.Write(freeList, data[..]);
      if nextFree == 0 {
        if nextFree >= totalInodes {
          freeList := NO_MORE_BLOCKS;
        } else {
          freeList := Int32(freeList + 1);
        }
      } else {
        freeList := nextFree;
      }
      return retVal;
    }

    /** returnBlock. */
    method ReturnBlock(blockNum: short) returns (r: int)
      requires Valid()
      modifies this, disk
      ensures Valid() && totalBlocks == old(totalBlocks) && totalInodes == old(totalInodes)
      ensures Free(old(State()), totalBlocks, blockNum) == Release(r, State())
    {
      if blockNum < 0 || blockNum > totalBlocks {
        return -1;
      }
      var data := new byte[BLOCK_SIZE](_ => 0);
      WriteInt(data, 0, freeList);
      assert data[..] == FreeBlockImage(freeList);
      var _ := disk.Write(blockNum, data[..]);
      freeList := blockNum;
      return blockNum;
    }

    /**
     * formatDisk: `threw` reports the ArithmeticException of the progress
     * output (FileSystem.format turns it into -1).
     */
    method FormatDisk(numInodes: int32) returns (threw: bool)
      requires Valid()
      modifies this, disk
      ensures Valid() && totalBlocks == old(totalBlocks)
      ensures !(0 <= numInodes <= MAX_INODES) ==>
        !threw && Record() == old(Record()) && disk.blocks == old(disk.blocks)
      ensures 0 <= numInodes <= MAX_INODES ==>
        totalInodes == numInodes && freeList == FirstFreeBlock(numInodes)
        && threw == FormatThrows(totalBlocks, freeList)
        && disk.blocks == FormatImage(old(disk.blocks), numInodes, threw)
    {
      if numInodes < 0 || numInodes > BLOCK_SIZE / 2 - 1 {
        return false;
      }
      var block := new byte[BLOCK_SIZE](_ => 0);
      totalInodes := numInodes;
      freeList := if numInodes % INODES_PER_BLOCK == 0
        then numInodes / INODES_PER_BLOCK + 1 else numInodes / INODES_PER_BLOCK + 2;
      WriteHeader(block);
      var _ := disk.Write(0, block[..]);
      assert block[..] == HeaderBlock(Record());
      ghost var header := disk.blocks;
      assert header == Store(old(disk.blocks), 0, HeaderBlock(SuperRecord(totalBlocks, numInodes, freeList)));
      FormatInodes(block);
      ClearBuffer(block);
      threw := FormatFreeList(block);
    }

    /** formatDisk's clearing of the buffer before the free-list loop. */
    static method ClearBuffer(block: array<byte>)
      modifies block
      ensures forall k | 0 <= k < block.Length :: block[k] == 0
    {
      for index := 0 to block.Length
        invariant forall k | 0 <= k < index :: block[k] == 0
      {
        block[index] := 0;
      }
    }

    /** formatDisk's inode loop: toBlockData of a fresh inode into the one buffer, written out at i = 16 and at the end. */
    method FormatInodes(block: array<byte>)
      requires Valid() && 0 <= totalInodes <= MAX_INODES
      requires block.Length == BLOCK_SIZE && block[..] == HeaderBlock(Record())
      modifies disk, block
      ensures Valid()
      ensures disk.blocks == InodeWrites(old(disk.blocks), totalInodes, totalInodes)
    {
      ghost var header := disk.blocks;
      ghost var m := Record();
      var i: short := 0;
      while i < totalInodes
        modifies disk, block
        invariant 0 <= i <= totalInodes
        invariant Valid()
        invariant disk.blocks == InodeWrites(header, totalInodes, i)
        invariant totalBlocks >= 1 ==>
          block[..] == if i == 0 then HeaderBlock(m) else InodeImage(Min(i, INODES_PER_BLOCK))
      {
        FormatInode(block, i, header, m);
        i := i + 1;
      }
    }

    /** One iteration of formatDisk's inode loop. */
    method FormatInode(block: array<byte>, i: short, ghost header: seq<seq<byte>>, ghost m: SuperRecord)
      requires Valid() && 0 <= i < totalInodes <= MAX_INODES && block.Length == BLOCK_SIZE && AllBlocks(header)
      requires disk.blocks == InodeWrites(header, totalInodes, i)
      requires totalBlocks >= 1 ==>
        block[..] == if i == 0 then HeaderBlock(m) else InodeImage(Min(i, INODES_PER_BLOCK))
      modifies disk, block
      ensures Valid()
      ensures disk.blocks == InodeWrites(header, totalInodes, i + 1)
      ensures totalBlocks >= 1 ==> block[..] == InodeImage(Min(i + 1, INODES_PER_BLOCK))
    {
      assert |header| == totalBlocks;
      PlaceFresh(block, i, m);
      FlushInodes(block, i, header);
    }

    /** The end of iteration i of the inode loop: the buffer goes to block i / 16 + 1 when i = 16 or i is the last inode. */
    method FlushInodes(block: array<byte>, i: short, ghost header: seq<seq<byte>>)
      requires Valid() && 0 <= i < totalInodes && block.Length == BLOCK_SIZE && AllBlocks(header) && |header| == totalBlocks
      requires disk.blocks == InodeWrites(header, totalInodes, i)
      requires totalBlocks >= 1 ==> block[..] == InodeImage(Min(i + 1, INODES_PER_BLOCK))
      modifies disk
      ensures Valid()
      ensures disk.blocks == InodeWrites(header, totalInodes, i + 1)
    {
      ghost var before, written := disk.blocks, block[..];
      if i == INODES_PER_BLOCK || i + 1 == totalInodes {
        var _ := disk.Write(i / INODES_PER_BLOCK + 1, block[..]);
        assert disk.blocks == Store(before, i / INODES_PER_BLOCK + 1, written);
      }
      InodeDiskStep(header, totalInodes, i, before, written, disk.blocks);
    }

    /** `new Inode()` and its toBlockData into the buffer, in iteration i of the inode loop. */
    method PlaceFresh(block: array<byte>, i: short, ghost m: SuperRecord)
      requires 0 <= i < totalInodes && block.Length == BLOCK_SIZE
      requires totalBlocks >= 1 ==>
        block[..] == if i == 0 then HeaderBlock(m) else InodeImage(Min(i, INODES_PER_BLOCK))
      modifies block
      ensures block[..] == if Placeable(i, totalInodes, totalBlocks)
        then PlaceRecord(old(block[..]), OffsetOf(i), InvalidRecord()) else old(block[..])
      ensures totalBlocks >= 1 ==> block[..] == InodeImage(Min(i + 1, INODES_PER_BLOCK))
    {
      var inode := new Inode();
      ghost var buf := block[..];
      var _ := inode.ToBlockData(block, i, totalInodes, totalBlocks);
      if totalBlocks >= 1 {
        InodeBufferStep(m, i, totalInodes, totalBlocks, buf);
      }
    }

    /**
     * formatDisk's free-list loop: block b of [freeList, totalBlocks) gets
     * b + 1 (-1 for the last); with fewer than ten blocks the progress output
     * throws right after the first write.
     */
    method FormatFreeList(block: array<byte>) returns (threw: bool)
      requires Valid() && freeList >= 1
      requires block.Length == BLOCK_SIZE && forall k | 0 <= k < BLOCK_SIZE :: block[k] == 0
      modifies disk, block
      ensures Valid()
      ensures threw == FormatThrows(totalBlocks, freeList)
      ensures disk.blocks == FreeWrites(old(disk.blocks), freeList, if threw then freeList + 1 else totalBlocks)
    {
      ghost var inodes := disk.blocks;
      var tenth := totalBlocks / 10;
      var currentBlock := freeList;
      while currentBlock < totalBlocks
        modifies disk, block
        invariant currentBlock == freeList || freeList < currentBlock <= totalBlocks
        invariant Valid()
        invariant disk.blocks == FreeWrites(inodes, freeList, currentBlock)
        invariant tenth == 0 ==> currentBlock == freeList
        invariant forall k | 4 <= k < BLOCK_SIZE :: block[k] == 0
      {
        WriteInt(block, 0, FormatNext(currentBlock, totalBlocks));
        assert block[..] == FreeBlockImage(FormatNext(currentBlock, totalBlocks));
        var _ := disk.Write(currentBlock, block[..]);
        assert disk.blocks == FreeWrites(inodes, freeList, currentBlock + 1);
        if tenth == 0 {
          return true;
        }
        currentBlock := currentBlock + 1;
      }
      assert disk.blocks == FreeWrites(inodes, freeList, totalBlocks);
      return false;
    }
  }
}

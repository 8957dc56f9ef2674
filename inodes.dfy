/**
 * Inodes: the 32-byte on-disk record, where record `n` lives on the device,
 * and the READ / WRITE / DEATH flag state machine guarding an open file.
 *
 * The static SuperBlock.totalInodes / totalBlocks the Java class consults are
 * passed in as parameters, and rawread / rawwrite go to a `Disk`.
 */
module Inodes {
  import opened JavaInts
  import opened Codec
  import opened Device
  import opened Options

  const INODE_SIZE: int := 32
  const INODES_PER_BLOCK: int := 16
  const DIRECT_SIZE: int := 11

  const MARKED_FOR_READ: bv8 := 0x01
  const MARKED_FOR_WRITE: bv8 := 0x02
  const MARKED_FOR_DEATH: bv8 := 0x04

  /** Largest file: 11 direct blocks plus 256 blocks behind the indirect block, 512 bytes each. */
  const MAX_FILE_SIZE: int := 136704

  /** The fields of an inode, as a value. */
  datatype InodeRecord = InodeRecord(
    length: int32,
    count: short,
    flag: bv8,
    readerCount: bv8,
    direct: seq<short>,
    indirect: short)

  /** What `invalidate` leaves behind (with a fresh object's readerCount 0). */
  function InvalidRecord(): (r: InodeRecord)
    ensures |r.direct| == DIRECT_SIZE
  {
    InodeRecord(0, 0, 0, 0, seq(DIRECT_SIZE, _ => -1), -1)
  }

  // ---------------------------------------------------------------------------
  // Where record n lives

  /** The block holding inode `n`: inodes start right after the superblock. */
  function BlockOf(n: int): int
    requires n >= 0
  {
    n / INODES_PER_BLOCK + 1
  }

  /** The byte offset of inode `n` inside its block. */
  function OffsetOf(n: int): int
    requires n >= 0
  {
    n % INODES_PER_BLOCK * INODE_SIZE
  }

  /** Every record fits in its block, and no block before block 1 holds one. */
  lemma RecordInBlock(n: int)
    requires n >= 0
    ensures BlockOf(n) >= 1
    ensures 0 <= OffsetOf(n) && OffsetOf(n) + INODE_SIZE <= BLOCK_SIZE
  {
  }

  /** Two different inodes never share a byte of the device. */
  lemma RecordsDisjoint(n: int, m: int)
    requires n >= 0 && m >= 0 && n != m
    ensures BlockOf(n) != BlockOf(m)
         || OffsetOf(n) + INODE_SIZE <= OffsetOf(m)
         || OffsetOf(m) + INODE_SIZE <= OffsetOf(n)
  {
    if BlockOf(n) == BlockOf(m) {
      assert n / 16 == m / 16;
      assert n % 16 != m % 16;
    }
  }

  // ---------------------------------------------------------------------------
  // The record codec

  /** The eleven direct pointers, two bytes each, in order. */
  function DirectBytes(d: seq<short>): (s: seq<byte>)
    ensures |s| == 2 * |d|
  {
    if |d| == 0 then [] else DirectBytes(d[..|d| - 1]) + ShortBytes(d[|d| - 1])
  }

  /** Pointer `i` sits at bytes [2i, 2i+2) of the pointer area. */
  lemma {:induction false} DirectBytesAt(d: seq<short>, i: int)
    requires 0 <= i < |d|
    ensures DirectBytes(d)[2 * i..2 * i + 2] == ShortBytes(d[i])
  {
    var n := |d| - 1;
    if i < n {
      DirectBytesAt(d[..n], i);
      assert DirectBytes(d) == DirectBytes(d[..n]) + ShortBytes(d[n]);
      assert DirectBytes(d)[2 * i..2 * i + 2] == DirectBytes(d[..n])[2 * i..2 * i + 2];
    }
  }

  /** The bytes toDisk / toBlockData write for an inode, up to and including direct pointer `i - 1`. */
  function RecordPrefix(r: InodeRecord, i: int): (s: seq<byte>)
    requires 0 <= i <= |r.direct|
    ensures |s| == 8 + 2 * i
  {
    IntBytes(r.length) + ShortBytes(r.count) + [r.flag as int, r.readerCount as int] + DirectBytes(r.direct[..i])
  }

  lemma RecordPrefixStart(r: InodeRecord)
    ensures RecordPrefix(r, 0) == IntBytes(r.length) + ShortBytes(r.count) + [r.flag as int, r.readerCount as int]
  {
    assert r.direct[..0] == [];
  }

  lemma RecordPrefixStep(r: InodeRecord, i: int)
    requires 0 <= i < |r.direct|
    ensures RecordPrefix(r, i + 1) == RecordPrefix(r, i) + ShortBytes(r.direct[i])
  {
    assert r.direct[..i + 1][..i] == r.direct[..i];
  }

  /** length, count, flag and readerCount written one after the other are the record's first eight bytes. */
  lemma HeadStep(before: seq<byte>, cur: seq<byte>, offset: int, r: InodeRecord)
    requires 0 <= offset && offset + INODE_SIZE <= |before| && |r.direct| == DIRECT_SIZE
    requires cur == PutShort(PutInt(before, offset, r.length), offset + 4, r.count)
    ensures Splice(cur, offset + 6, [r.flag as int, r.readerCount as int]) == Splice(before, offset, RecordPrefix(r, 0))
  {
    SpliceExtend(before, offset, IntBytes(r.length), ShortBytes(r.count));
    SpliceExtend(before, offset, IntBytes(r.length) + ShortBytes(r.count), [r.flag as int, r.readerCount as int]);
    RecordPrefixStart(r);
  }

  /** The indirect pointer written after all eleven direct pointers completes the record. */
  lemma TailStep(before: seq<byte>, cur: seq<byte>, offset: int, r: InodeRecord)
    requires 0 <= offset && offset + INODE_SIZE <= |before| && |r.direct| == DIRECT_SIZE
    requires cur == Splice(before, offset, RecordPrefix(r, DIRECT_SIZE))
    ensures PutShort(cur, offset + 30, r.indirect) == PlaceRecord(before, offset, r)
  {
    SpliceExtend(before, offset, RecordPrefix(r, DIRECT_SIZE), ShortBytes(r.indirect));
  }

  /** Writing pointer `i` after the first `i` pointers extends the written prefix by one pointer. */
  lemma PrefixStep(before: seq<byte>, cur: seq<byte>, offset: int, r: InodeRecord, i: int)
    requires 0 <= offset && offset + INODE_SIZE <= |before| && 0 <= i < |r.direct| == DIRECT_SIZE
    requires cur == Splice(before, offset, RecordPrefix(r, i))
    ensures PutShort(cur, offset + 8 + i * 2, r.direct[i]) == Splice(before, offset, RecordPrefix(r, i + 1))
  {
    SpliceExtend(before, offset, RecordPrefix(r, i), ShortBytes(r.direct[i]));
    RecordPrefixStep(r, i);
  }

  /** The 32 bytes toDisk / toBlockData write: length@0, count@4, flag@6, readerCount@7, direct@8, indirect@30. */
  function EncodeRecord(r: InodeRecord): (s: seq<byte>)
    requires |r.direct| == DIRECT_SIZE
    ensures |s| == INODE_SIZE
  {
    RecordPrefix(r, DIRECT_SIZE) + ShortBytes(r.indirect)
  }

  /** A block with the record of `r` written at `off` and every other byte kept. */
  function PlaceRecord(block: seq<byte>, off: int, r: InodeRecord): (s: seq<byte>)
    requires 0 <= off && off + INODE_SIZE <= |block| && |r.direct| == DIRECT_SIZE
    ensures |s| == |block|
    ensures s[off..off + INODE_SIZE] == EncodeRecord(r)
    ensures forall k | 0 <= k < |block| && !(off <= k < off + INODE_SIZE) :: s[k] == block[k]
  {
    Splice(block, off, EncodeRecord(r))
  }

  /**
   * What the Inode(short) constructor decodes from the record at `off`. The
   * flag is read from byte +7 (the byte holding readerCount) after first being
   * read from +6, and readerCount is not read at all: it keeps its initial 0.
   */
  function DecodeAt(block: seq<byte>, off: int): (r: InodeRecord)
    requires 0 <= off && off + INODE_SIZE <= |block|
    ensures |r.direct| == DIRECT_SIZE
  {
    InodeRecord(
      GetInt(block, off),
      GetShort(block, off + 4),
      block[off + 7] as bv8,
      0,
      seq(DIRECT_SIZE, i requires 0 <= i < DIRECT_SIZE => GetShort(block, off + 8 + i * 2)),
      GetShort(block, off + 30))
  }

  /** Where each field sits inside the 32 encoded bytes. */
  lemma {:induction false} EncodeRecordFields(r: InodeRecord)
    requires |r.direct| == DIRECT_SIZE
    ensures EncodeRecord(r)[0..4] == IntBytes(r.length)
    ensures EncodeRecord(r)[4..6] == ShortBytes(r.count)
    ensures EncodeRecord(r)[6] == r.flag as int
    ensures EncodeRecord(r)[7] == r.readerCount as int
    ensures EncodeRecord(r)[8..30] == DirectBytes(r.direct)
    ensures EncodeRecord(r)[30..32] == ShortBytes(r.indirect)
  {
    assert r.direct[..DIRECT_SIZE] == r.direct;
  }

  /** A slice of a slice is a slice. */
  lemma SliceOfSlice(s: seq<byte>, off: int, n: int, a: int, b: int)
    requires 0 <= off && off + n <= |s| && 0 <= a <= b <= n
    ensures s[off..off + n][a..b] == s[off + a..off + b]
  {
    var t := s[off..off + n];
    assert forall k | 0 <= k < b - a :: t[a..b][k] == t[a + k];
  }

  /**
   * Decoding a record that was just encoded gives back length, count, every
   * direct pointer and the indirect pointer; the flag comes back as the old
   * readerCount, and readerCount as 0.
   */
  lemma {:induction false} RecordRoundTrip(block: seq<byte>, off: int, r: InodeRecord)
    requires 0 <= off && off + INODE_SIZE <= |block| && |r.direct| == DIRECT_SIZE
    ensures DecodeAt(PlaceRecord(block, off, r), off) == r.(flag := r.readerCount, readerCount := 0)
  {
    var s := PlaceRecord(block, off, r);
    FieldsRoundTrip(s, off, r);
    DirectsRoundTrip(s, off, r);
  }

  /** The scalar fields read back from a block holding the encoded record at `off`. */
  lemma FieldsRoundTrip(s: seq<byte>, off: int, r: InodeRecord)
    requires 0 <= off && off + INODE_SIZE <= |s| && |r.direct| == DIRECT_SIZE
    requires s[off..off + INODE_SIZE] == EncodeRecord(r)
    ensures GetInt(s, off) == r.length && GetShort(s, off + 4) == r.count
    ensures s[off + 7] == r.readerCount as int && GetShort(s, off + 30) == r.indirect
  {
    var e := EncodeRecord(r);
    EncodeRecordFields(r);
    SliceOfSlice(s, off, INODE_SIZE, 0, 4);
    GetIntOf(s, off, r.length);
    SliceOfSlice(s, off, INODE_SIZE, 4, 6);
    GetShortOf(s, off + 4, r.count);
    assert s[off + 7] == e[7];
    SliceOfSlice(s, off, INODE_SIZE, 30, 32);
    GetShortOf(s, off + 30, r.indirect);
  }

  /** The eleven direct pointers read back from a block holding the encoded record at `off`. */
  lemma DirectsRoundTrip(s: seq<byte>, off: int, r: InodeRecord)
    requires 0 <= off && off + INODE_SIZE <= |s| && |r.direct| == DIRECT_SIZE
    requires s[off..off + INODE_SIZE] == EncodeRecord(r)
    ensures DecodeAt(s, off).direct == r.direct
  {
    var d := DecodeAt(s, off).direct;
    forall i | 0 <= i < DIRECT_SIZE
      ensures d[i] == r.direct[i]
    {
      DirectRoundTrip(s, off, r, i);
    }
  }

  /** Direct pointer `i` reads back from a block holding the encoded record at `off`. */
  lemma DirectRoundTrip(s: seq<byte>, off: int, r: InodeRecord, i: int)
    requires 0 <= off && off + INODE_SIZE <= |s| && |r.direct| == DIRECT_SIZE && 0 <= i < DIRECT_SIZE
    requires s[off..off + INODE_SIZE] == EncodeRecord(r)
    ensures GetShort(s, off + 8 + i * 2) == r.direct[i]
  {
    var e := EncodeRecord(r);
    EncodeRecordFields(r);
    DirectBytesAt(r.direct, i);
    SliceOfSlice(s, off, INODE_SIZE, 8 + 2 * i, 10 + 2 * i);
    SliceOfSlice(e, 8, 22, 2 * i, 2 * i + 2);
    GetShortOf(s, off + 8 + i * 2, r.direct[i]);
  }

  /** Hence the flag survives a store and a load only when it happens to equal readerCount. */
  lemma FlagRoundTripsOnlyIfEqual(block: seq<byte>, off: int, r: InodeRecord)
    requires 0 <= off && off + INODE_SIZE <= |block| && |r.direct| == DIRECT_SIZE
    ensures DecodeAt(PlaceRecord(block, off, r), off).flag == r.flag <==> r.flag == r.readerCount
  {
    RecordRoundTrip(block, off, r);
  }

  /** Decoding looks only at the record's own 32 bytes. */
  lemma DecodeAtFrame(s: seq<byte>, t: seq<byte>, off: int)
    requires 0 <= off && off + INODE_SIZE <= |s| && off + INODE_SIZE <= |t|
    requires s[off..off + INODE_SIZE] == t[off..off + INODE_SIZE]
    ensures DecodeAt(s, off) == DecodeAt(t, off)
  {
    forall k | off <= k < off + INODE_SIZE
      ensures s[k] == t[k]
    {
      assert s[k] == s[off..off + INODE_SIZE][k - off];
    }
    GetIntFrame(s, t, off);
    GetShortFrame(s, t, off + 4);
    GetShortFrame(s, t, off + 30);
    forall i | 0 <= i < DIRECT_SIZE
      ensures GetShort(s, off + 8 + i * 2) == GetShort(t, off + 8 + i * 2)
    {
      GetShortFrame(s, t, off + 8 + i * 2);
    }
  }

  // ---------------------------------------------------------------------------
  // Records on the device

  /** The guards toBlockData (and toDisk, before reading) apply to an inode number. */
  predicate Placeable(n: int, totalInodes: int, totalBlocks: int)
  {
    0 <= n <= totalInodes && BlockOf(n) <= totalBlocks
  }

  /** toDisk and the loading constructor also need the block read to succeed. */
  predicate OnDevice(blocks: seq<seq<byte>>, n: int, totalInodes: int, totalBlocks: int)
  {
    Placeable(n, totalInodes, totalBlocks) && BlockOf(n) < |blocks|
  }

  /** The record the Inode(short) constructor produces for inode `n`. */
  function LoadRecord(blocks: seq<seq<byte>>, n: int, totalInodes: int, totalBlocks: int): (r: InodeRecord)
    requires AllBlocks(blocks)
    ensures |r.direct| == DIRECT_SIZE
    ensures !OnDevice(blocks, n, totalInodes, totalBlocks) ==> r == InvalidRecord()
  {
    if OnDevice(blocks, n, totalInodes, totalBlocks) then
      RecordInBlock(n);
      DecodeAt(blocks[BlockOf(n)], OffsetOf(n))
    else
      InvalidRecord()
  }

  /** The device after toDisk stores `r` as inode `n` (unchanged when toDisk fails). */
  function StoreRecord(blocks: seq<seq<byte>>, n: int, r: InodeRecord, totalInodes: int, totalBlocks: int)
    : (b: seq<seq<byte>>)
    requires AllBlocks(blocks) && |r.direct| == DIRECT_SIZE
    ensures AllBlocks(b) && |b| == |blocks|
  {
    if OnDevice(blocks, n, totalInodes, totalBlocks) then
      RecordInBlock(n);
      blocks[BlockOf(n) := PlaceRecord(blocks[BlockOf(n)], OffsetOf(n), r)]
    else
      blocks
  }

  /**
   * Loading after storing: inode `n` comes back as stored (up to the flag
   * defect), and every other inode comes back as it was before the store.
   */
  lemma LoadAfterStore(blocks: seq<seq<byte>>, n: int, r: InodeRecord, m: int, totalInodes: int, totalBlocks: int)
    requires AllBlocks(blocks) && |r.direct| == DIRECT_SIZE
    ensures LoadRecord(StoreRecord(blocks, n, r, totalInodes, totalBlocks), m, totalInodes, totalBlocks)
         == if m == n && OnDevice(blocks, n, totalInodes, totalBlocks)
            then r.(flag := r.readerCount, readerCount := 0)
            else LoadRecord(blocks, m, totalInodes, totalBlocks)
  {
    var after := StoreRecord(blocks, n, r, totalInodes, totalBlocks);
    if OnDevice(blocks, n, totalInodes, totalBlocks) && OnDevice(blocks, m, totalInodes, totalBlocks) {
      RecordInBlock(n);
      RecordInBlock(m);
      if m == n {
        RecordRoundTrip(blocks[BlockOf(n)], OffsetOf(n), r);
      } else if BlockOf(m) == BlockOf(n) {
        RecordsDisjoint(n, m);
        var old_ := blocks[BlockOf(n)];
        var new_ := PlaceRecord(old_, OffsetOf(n), r);
        assert new_[OffsetOf(m)..OffsetOf(m) + INODE_SIZE] == old_[OffsetOf(m)..OffsetOf(m) + INODE_SIZE];
        DecodeAtFrame(new_, old_, OffsetOf(m));
      }
    }
  }

  // ---------------------------------------------------------------------------
  // The flag state machine

  /** The two lock fields of an inode. */
  datatype Lock = Lock(flag: bv8, readers: bv8)

  /** The loop condition of waitRead is false: the reader may go on. */
  predicate MayRead(l: Lock)
  {
    !((l.flag & MARKED_FOR_WRITE) != 0 && Signed8(l.readers) < 255)
  }

  /** waitRead after its loop: one more reader, READ set. */
  function AcquireRead(l: Lock): Lock
  {
    Lock(l.flag | MARKED_FOR_READ, l.readers + 1)
  }

  /** finishRead: one reader fewer; READ toggled when the count reaches 0. */
  function ReleaseRead(l: Lock): Lock
  {
    var n := l.readers - 1;
    Lock(if n == 0 then l.flag ^ MARKED_FOR_READ else l.flag, n)
  }

  /** The loop condition of waitWrite is false: neither READ nor WRITE is set. */
  predicate MayWrite(l: Lock)
  {
    l.flag & MARKED_FOR_WRITE == 0 && l.flag & MARKED_FOR_READ == 0
  }

  /** waitWrite after its loop: WRITE set. */
  function AcquireWrite(l: Lock): Lock
  {
    l.(flag := l.flag | MARKED_FOR_WRITE)
  }

  /** finishWrite: WRITE toggled. */
  function ReleaseWrite(l: Lock): Lock
  {
    l.(flag := l.flag ^ MARKED_FOR_WRITE)
  }

  /** READ is set exactly while there are readers, and never together with WRITE. */
  predicate Consistent(l: Lock)
  {
    ((l.flag & MARKED_FOR_READ != 0) <==> l.readers != 0)
    && !(l.flag & MARKED_FOR_READ != 0 && l.flag & MARKED_FOR_WRITE != 0)
  }

  /** The `readerCount < 255` half of waitRead's loop test is always true of a Java byte. */
  lemma MayReadIffNoWriter(l: Lock)
    ensures MayRead(l) <==> l.flag & MARKED_FOR_WRITE == 0
  {
  }

  /**
   * A reader that gets in keeps the lock consistent, lets further readers in,
   * shuts writers out, and its finishRead puts the lock back as it was.
   */
  lemma ReadCycle(l: Lock)
    requires Consistent(l) && MayRead(l) && l.readers != 255
    ensures Consistent(AcquireRead(l))
    ensures MayRead(AcquireRead(l)) && !MayWrite(AcquireRead(l))
    ensures ReleaseRead(AcquireRead(l)) == l
  {
  }

  /** Releasing one of several readers keeps the lock consistent and still shuts writers out. */
  lemma ReleaseOneOfMany(l: Lock)
    requires Consistent(l) && l.readers != 0 && l.readers != 1
    ensures Consistent(ReleaseRead(l)) && !MayWrite(ReleaseRead(l))
  {
  }

  /**
   * A writer that gets in keeps the lock consistent, shuts readers and other
   * writers out, and its finishWrite puts the lock back as it was.
   */
  lemma WriteCycle(l: Lock)
    requires MayWrite(l)
    ensures Consistent(l) ==> Consistent(AcquireWrite(l))
    ensures !MayRead(AcquireWrite(l)) && !MayWrite(AcquireWrite(l))
    ensures ReleaseWrite(AcquireWrite(l)) == l
  {
  }

  /** finishWrite is a toggle, not a clear: without a matching waitWrite it sets WRITE. */
  lemma UnmatchedReleaseWriteLocks(l: Lock)
    requires l.flag & MARKED_FOR_WRITE == 0
    ensures ReleaseWrite(l).flag & MARKED_FOR_WRITE != 0 && !MayWrite(ReleaseWrite(l))
  {
  }

  /** markForDeath's update of the flag. */
  function MarkDeath(flag: bv8): bv8
  {
    flag | MARKED_FOR_DEATH
  }

  /** markForDeath sets the DEATH bit only, and marking twice is marking once. */
  lemma MarkDeathOnlyDeath(flag: bv8)
    ensures MarkDeath(flag) & MARKED_FOR_DEATH != 0
    ensures MarkDeath(flag) & !MARKED_FOR_DEATH == flag & !MARKED_FOR_DEATH
    ensures MarkDeath(MarkDeath(flag)) == MarkDeath(flag)
  {
  }

  // ---------------------------------------------------------------------------
  // The Inode object

  class Inode {
    var length: int32
    var count: short
    var readerCount: bv8
    var flag: bv8
    const direct: array<short>
    var indirect: short

    ghost predicate Valid()
    {
      direct.Length == DIRECT_SIZE
    }

    /** The fields as a record. */
    function Record(): (r: InodeRecord)
      reads this, direct
      requires Valid()
      ensures |r.direct| == DIRECT_SIZE
    {
      InodeRecord(length, count, flag, readerCount, direct[..], indirect)
    }

    function LockState(): Lock
      reads this
    {
      Lock(flag, readerCount)
    }

    /** Inode(): an invalid inode. */
    constructor ()
      ensures Valid() && fresh(direct)
      ensures Record() == InvalidRecord()
    {
      readerCount := 0;
      direct := new short[DIRECT_SIZE];
      new;
      Invalidate();
    }

    /** Inode(short iNumber): the record of inode `iNumber` read from the device, or an invalid inode. */
    constructor Load(iNumber: short, totalInodes: int32, totalBlocks: int32, disk: Disk)
      requires disk.Valid()
      ensures Valid() && fresh(direct)
      ensures Record() == LoadRecord(disk.blocks, iNumber, totalInodes, totalBlocks)
    {
      readerCount := 0;
      direct := new short[DIRECT_SIZE];
      new;
      if iNumber < 0 || iNumber > totalInodes {
        Invalidate();
        return;
      }
      var blockNum := iNumber / INODES_PER_BLOCK + 1;
      if blockNum > totalBlocks {
        Invalidate();
        return;
      }
      var block := disk.Read(blockNum);
      if block.None? {
        Invalidate();
        return;
      }
      var offset := iNumber % INODES_PER_BLOCK * INODE_SIZE;
      assert blockNum == BlockOf(iNumber) && offset == OffsetOf(iNumber);
      RecordInBlock(iNumber);
      Decode(block.value, offset);
    }

    /** The field reads of Inode(short iNumber) from the record at `offset` of a block. */
    method Decode(data: seq<byte>, offset: int)
      requires Valid() && 0 <= offset && offset + INODE_SIZE <= |data|
      modifies this, direct
      ensures Valid()
      ensures Record() == DecodeAt(data, offset).(readerCount := old(readerCount))
    {
      length := GetInt(data, offset);
      count := GetShort(data, offset + 4);
      flag := data[offset + 6] as bv8;
      flag := data[offset + 7] as bv8;
      for i := 0 to DIRECT_SIZE
        modifies direct
        invariant forall k | 0 <= k < i :: direct[k] == GetShort(data, offset + 8 + k * 2)
      {
        direct[i] := GetShort(data, offset + 8 + i * 2);
      }
      indirect := GetShort(data, offset + 30);
      assert direct[..] == DecodeAt(data, offset).direct;
    }

    /** Writes this inode's record at `offset` of a block buffer; nothing else in the buffer changes. */
    method WriteRecord(block: array<byte>, offset: int)
      requires Valid() && 0 <= offset && offset + INODE_SIZE <= block.Length
      modifies block
      ensures block[..] == PlaceRecord(old(block[..]), offset, Record())
    {
      ghost var before := block[..];
      WriteHead(block, offset);
      WriteDirects(block, offset, before);
      ghost var last := block[..];
      WriteShort(block, offset + 30, indirect);
      TailStep(before, last, offset, Record());
    }

    /** The first eight bytes of the record: length, count, flag, readerCount. */
    method WriteHead(block: array<byte>, offset: int)
      requires Valid() && 0 <= offset && offset + INODE_SIZE <= block.Length
      modifies block
      ensures block[..] == Splice(old(block[..]), offset, RecordPrefix(Record(), 0))
    {
      ghost var before := block[..];
      WriteInt(block, offset, length);
      WriteShort(block, offset + 4, count);
      ghost var cur := block[..];
      block[offset + 6] := flag as int;
      block[offset + 7] := readerCount as int;
      assert block[..] == Splice(cur, offset + 6, [flag as int, readerCount as int]);
      HeadStep(before, cur, offset, Record());
    }

    /** The eleven direct pointers, after the first eight bytes. */
    method WriteDirects(block: array<byte>, offset: int, ghost before: seq<byte>)
      requires Valid() && 0 <= offset && offset + INODE_SIZE <= block.Length == |before|
      requires block[..] == Splice(before, offset, RecordPrefix(Record(), 0))
      modifies block
      ensures block[..] == Splice(before, offset, RecordPrefix(Record(), DIRECT_SIZE))
    {
      for i := 0 to DIRECT_SIZE
        invariant block[..] == Splice(before, offset, RecordPrefix(Record(), i))
      {
        ghost var cur := block[..];
        WriteShort(block, offset + 8 + i * 2, direct[i]);
        PrefixStep(before, cur, offset, Record(), i);
      }
    }

    /** toBlockData: place this inode's record into a buffer for block BlockOf(iNumber). */
    method ToBlockData(data: array<byte>, iNumber: short, totalInodes: int32, totalBlocks: int32) returns (status: int)
      requires Valid()
      modifies data
      ensures var ok := Placeable(iNumber, totalInodes, totalBlocks) && data.Length == BLOCK_SIZE;
        status == (if ok then 0 else -1)
        && data[..] == if ok then PlaceRecord(old(data[..]), OffsetOf(iNumber), Record()) else old(data[..])
    {
      if iNumber < 0 || iNumber > totalInodes || data.Length != BLOCK_SIZE {
        return -1;
      }
      var blockNum := iNumber / INODES_PER_BLOCK + 1;
      if blockNum > totalBlocks {
        return -1;
      }
      var offset := iNumber % INODES_PER_BLOCK * INODE_SIZE;
      RecordInBlock(iNumber);
      WriteRecord(data, offset);
      return 0;
    }

    /** toDisk: read-modify-write of the block holding inode `iNumber`. */
    method ToDisk(iNumber: short, totalInodes: int32, totalBlocks: int32, disk: Disk) returns (status: int)
      requires Valid() && disk.Valid()
      modifies disk
      ensures disk.Valid()
      ensures status == (if OnDevice(old(disk.blocks), iNumber, totalInodes, totalBlocks) then 0 else -1)
      ensures disk.blocks == StoreRecord(old(disk.blocks), iNumber, Record(), totalInodes, totalBlocks)
    {
      if iNumber < 0 || iNumber > totalInodes {
        return -1;
      }
      var blockNum := iNumber / INODES_PER_BLOCK + 1;
      if blockNum > totalBlocks {
        return -1;
      }
      var read := disk.Read(blockNum);
      if read.None? {
        return -1;
      }
      var block := new byte[BLOCK_SIZE](i requires 0 <= i < BLOCK_SIZE => read.value[i]);
      assert block[..] == read.value;
      var offset := iNumber % INODES_PER_BLOCK * INODE_SIZE;
      RecordInBlock(iNumber);
      WriteRecord(block, offset);
      status := disk.Write(blockNum, block[..]);
    }

    /** invalidate: empty file, no references, no flags, no blocks; readerCount is left alone. */
    method Invalidate()
      requires Valid()
      modifies this, direct
      ensures Valid()
      ensures Record() == InvalidRecord().(readerCount := old(readerCount))
    {
      length := 0;
      count := 0;
      flag := 0;
      for i := 0 to DIRECT_SIZE
        modifies direct
        invariant forall k | 0 <= k < i :: direct[k] == -1
      {
        direct[i] := -1;
      }
      indirect := -1;
      assert direct[..] == InvalidRecord().direct;
    }

    method MarkForDeath()
      modifies this
      ensures flag == MarkDeath(old(flag))
      ensures length == old(length) && count == old(count) && readerCount == old(readerCount)
      ensures indirect == old(indirect)
    {
      flag := flag | MARKED_FOR_DEATH;
    }

    /** The DEATH bit is set: exactly when markForDeath would leave the flag as it is. */
    predicate IsDying(): (r: bool)
      reads this
      ensures r <==> MarkDeath(flag) == flag
    {
      flag & MARKED_FOR_DEATH != 0
    }

    /** waitRead, once no writer holds the inode. */
    method WaitRead()
      requires MayRead(LockState())
      modifies this
      ensures LockState() == AcquireRead(old(LockState()))
      ensures length == old(length) && count == old(count) && indirect == old(indirect)
      ensures Valid() ==> Record() == old(Record()).(flag := flag, readerCount := readerCount)
    {
      readerCount := readerCount + 1;
      flag := flag | MARKED_FOR_READ;
    }

    method FinishRead()
      modifies this
      ensures LockState() == ReleaseRead(old(LockState()))
      ensures length == old(length) && count == old(count) && indirect == old(indirect)
      ensures Valid() ==> Record() == old(Record()).(flag := flag, readerCount := readerCount)
    {
      readerCount := readerCount - 1;
      if readerCount == 0 {
        flag := flag ^ MARKED_FOR_READ;
      }
    }

    /** waitWrite, once neither readers nor a writer hold the inode. */
    method WaitWrite()
      requires MayWrite(LockState())
      modifies this
      ensures LockState() == AcquireWrite(old(LockState()))
      ensures length == old(length) && count == old(count) && indirect == old(indirect)
      ensures Valid() ==> Record() == old(Record()).(flag := flag, readerCount := readerCount)
    {
      flag := flag | MARKED_FOR_WRITE;
    }

    method FinishWrite()
      modifies this
      ensures LockState() == ReleaseWrite(old(LockState()))
      ensures length == old(length) && count == old(count) && indirect == old(indirect)
      ensures Valid() ==> Record() == old(Record()).(flag := flag, readerCount := readerCount)
    {
      flag := flag ^ MARKED_FOR_WRITE;
    }
  }
}

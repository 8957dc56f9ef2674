/**
 * The system-wide open-file table: one FileTableEntry per open, all entries
 * of a file sharing that file's Inode object, whose `count` says how many
 * opens hold it.
 */
module FileTables {
  import opened JavaInts
  import opened Options
  import opened Device
  import opened Inodes
  import opened SuperBlocks
  import opened Directories

  /** mode.equalsIgnoreCase("a"). */
  predicate IsAppend(mode: string)
  {
    mode == "a" || mode == "A"
  }

  // ---------------------------------------------------------------------------
  // An open file

  class FileTableEntry {
    var seekPtr: int32
    const inode: Inode
    const iNumber: short
    var count: int32
    const mode: string

    /** An entry over the caller's own Inode object: appends start at the end, every other mode at 0. */
    constructor (i: Inode, n: short, m: string)
      ensures inode == i && iNumber == n && mode == m
      ensures seekPtr == (if IsAppend(m) then i.length else 0)
      ensures count == 1
    {
      seekPtr := if IsAppend(m) then i.length else 0;
      inode := i;
      iNumber := n;
      count := 1;
      mode := m;
    }
  }

  /** The position of the first entry of inode `n`, or -1. */
  function IndexOf(t: seq<FileTableEntry>, n: int): (i: int)
    ensures -1 <= i < |t|
    ensures i >= 0 ==> t[i].iNumber == n
    ensures forall k | 0 <= k < (if i >= 0 then i else |t|) :: t[k].iNumber != n
  {
    if |t| == 0 then -1
    else if t[0].iNumber == n then 0
    else
      var j := IndexOf(t[1..], n);
      if j == -1 then -1 else j + 1
  }

  /** The table without position `i`, as Vector.removeElementAt leaves it. */
  function RemoveAt(t: seq<FileTableEntry>, i: int): (r: seq<FileTableEntry>)
    requires 0 <= i < |t|
    ensures |r| == |t| - 1
    ensures forall k | 0 <= k < |r| :: r[k] == if k < i then t[k] else t[k + 1]
  {
    t[..i] + t[i + 1..]
  }

  // ---------------------------------------------------------------------------
  // The table

  class FileTable {
    var table: seq<FileTableEntry>
    const dir: Directory

    ghost predicate Valid()
      reads this, dir, dir.fsize
    {
      dir.Valid() && forall e | e in table :: e.inode.Valid()
    }

    constructor (d: Directory)
      ensures table == [] && dir == d
    {
      table := [];
      dir := d;
    }

    /** The inode falloc(filename) would share: the one of the first entry with the name's number. */
    function Resident(filename: seq<jchar>): (s: set<Inode>)
      reads this, dir, dir.fsize, dir.fnames
      requires Valid()
      ensures |s| <= 1
    {
      var n := dir.Namei(filename);
      var i := IndexOf(table, n);
      if n != -1 && i != -1 then {table[i].inode} else {}
    }

    /** The inode of the first entry with number `n`, which falloc shares instead of loading one. */
    function SharedInode(n: int): Option<Inode>
      reads this
    {
      var i := IndexOf(table, n);
      if i != -1 then Some(table[i].inode) else None
    }

    /** The entry ffree(e) works on: the first one with e's number. */
    function Holder(e: FileTableEntry): (s: set<object>)
      reads this
    {
      var i := IndexOf(table, e.iNumber);
      if i != -1 then {table[i], table[i].inode} else {}
    }

    /** The search loop of falloc and ffree, indexing with the loop variable. */
    method Search(n: int) returns (tableIndex: int)
      ensures tableIndex == IndexOf(table, n)
    {
      var i := 0;
      while i < |table|
        invariant 0 <= i <= |table|
        invariant forall k | 0 <= k < i :: table[k].iNumber != n
      {
        if table[i].iNumber == n {
          return i;
        }
        i := i + 1;
      }
      return -1;
    }

    /**
     * falloc. An unknown name is created in the directory (null when that
     * fails) with a fresh inode of count 1, and only such entries join the
     * table. A known name shares the inode of the first table entry with its
     * number, or loads it from the device; null when it is marked for death,
     * and the call waits while a reader or writer holds it; otherwise its
     * count goes up by one. Either way the inode is written back (with WRITE
     * still set) and the answer is a new entry of count 1.
     */
    method Falloc(filename: seq<jchar>, mode: string, sb: SuperBlock) returns (r: Wait<FileTableEntry?>)
      requires Valid() && sb.Valid()
      modifies this, dir.fsize, dir.fnames, sb.disk, Resident(filename)
      ensures Valid() && sb.Valid()
      ensures old(dir.Namei(filename)) == -1 ==> Created(filename, mode, sb, r)
      ensures var n := old(dir.Namei(filename));
        n != -1 ==> unchanged(dir.fsize, dir.fnames) && table == old(table) && Shares(n, mode, sb, old(Found(n, sb)), r)
    {
      var iNumber: short := dir.Namei(filename);
      if iNumber == -1 {
        r := Create(filename, mode, sb);
      } else {
        r := Share(iNumber, mode, sb, Found(iNumber, sb));
      }
    }

    /**
     * falloc's answer for a name the directory does not know: a new entry of
     * count 1 over a fresh inode of count 1 in the first free slot, the name
     * written there and the inode stored twice (as ialloc leaves it, then with
     * count 1 and WRITE set); null and nothing changed when the name is too
     * long or no slot is free.
     */
    twostate predicate Created(filename: seq<jchar>, mode: string, sb: SuperBlock, new r: Wait<FileTableEntry?>)
      requires old(Valid()) && Valid() && old(sb.Valid())
      reads this, dir, dir.fsize, dir.fnames, sb, sb.disk
      reads if r.Done? && r.value != null then {r.value, r.value.inode, r.value.inode.direct} else {}
    {
      var free := FreeFrom(old(RowsOf(dir.fnames)), 0);
      if |filename| <= MAX_CHARS && free != -1 then
        r.Done? && r.value != null && fresh(r.value) && fresh(r.value.inode)
        && r.value.iNumber == free + 1 && r.value.count == 1 && r.value.mode == mode && r.value.seekPtr == 0
        && r.value.inode.Valid() && r.value.inode.Record() == InvalidRecord().(count := 1)
        && table == old(table) + [r.value]
        && dir.fsize[..] == old(dir.fsize[..])[free := |filename|]
        && RowsOf(dir.fnames) == old(RowsOf(dir.fnames))[free := filename + old(RowsOf(dir.fnames))[free][|filename|..]]
        && sb.disk.blocks == StoreRecord(
             StoreRecord(old(sb.disk.blocks), free + 1, InvalidRecord(), sb.totalInodes, sb.totalBlocks),
             free + 1, InvalidRecord().(count := 1, flag := MARKED_FOR_WRITE), sb.totalInodes, sb.totalBlocks)
      else
        r == Done(null) && table == old(table) && sb.disk.blocks == old(sb.disk.blocks)
        && dir.fsize[..] == old(dir.fsize[..]) && RowsOf(dir.fnames) == old(RowsOf(dir.fnames))
    }

    /** falloc for a name the directory does not know: ialloc, a fresh inode of count 1, a new table entry. */
    method Create(filename: seq<jchar>, mode: string, sb: SuperBlock) returns (r: Wait<FileTableEntry?>)
      requires Valid() && sb.Valid() && dir.Namei(filename) == -1
      modifies this, dir.fsize, dir.fnames, sb.disk
      ensures Valid() && sb.Valid() && Created(filename, mode, sb, r)
    {
      var iNumber := dir.Ialloc(filename, sb);
      if iNumber == -1 {
        return Done(null);
      }
      var entry := Admit(iNumber, mode, sb);
      return Done(entry);
    }

    /** The new file's entry: a fresh inode of count 1, written back to slot iNumber with WRITE set, and appended to the table. */
    method Admit(iNumber: short, mode: string, sb: SuperBlock) returns (entry: FileTableEntry)
      requires Valid() && sb.Valid()
      modifies this, sb.disk
      ensures Valid() && sb.Valid() && fresh(entry) && fresh(entry.inode)
      ensures entry.iNumber == iNumber && entry.count == 1 && entry.mode == mode && entry.seekPtr == 0
      ensures entry.inode.Valid() && entry.inode.Record() == InvalidRecord().(count := 1)
      ensures table == old(table) + [entry]
      ensures sb.disk.blocks == StoreRecord(old(sb.disk.blocks), iNumber, InvalidRecord().(count := 1, flag := MARKED_FOR_WRITE), sb.totalInodes, sb.totalBlocks)
    {
      var inode := new Inode();
      inode.count := 1;
      inode.WaitWrite();
      assert inode.Record() == InvalidRecord().(count := 1, flag := MARKED_FOR_WRITE);
      entry := Publish(inode, iNumber, mode, true, sb, inode.Record());
    }

    /** What falloc finds for inode `n`: the record of the shared inode, or the one on the device. */
    ghost function Found(n: int, sb: SuperBlock): (r: InodeRecord)
      reads this, dir, dir.fsize, sb, sb.disk, (set e | e in table :: e.inode), (set e | e in table :: e.inode.direct)
      requires Valid() && sb.Valid()
      ensures |r.direct| == DIRECT_SIZE
    {
      var i := IndexOf(table, n);
      if i != -1 then table[i].inode.Record() else LoadRecord(sb.disk.blocks, n, sb.totalInodes, sb.totalBlocks)
    }

    /** The inode falloc shares for number `n`, as a set: that of the first table entry with it, if any. */
    function Holding(n: int): (s: set<Inode>)
      reads this
      ensures |s| <= 1
    {
      var i := IndexOf(table, n);
      if i != -1 then {table[i].inode} else {}
    }

    /** An entry for inode `n` that falloc hands out after taking one more count on the `found` inode. */
    ghost predicate Shared(e: FileTableEntry, n: int, mode: string, found: InodeRecord)
      reads e, e.inode, e.inode.direct
    {
      e.iNumber == n && e.count == 1 && e.mode == mode
      && e.inode.Valid() && e.inode.Record() == found.(count := Short(found.count + 1))
      && e.seekPtr == (if IsAppend(mode) then found.length else 0)
    }

    /**
     * falloc's answer for a name the directory knows, inode `n` found as
     * `found`: null when it is marked for death, a wait while a reader or
     * writer holds it; otherwise a new entry over the first table entry's
     * inode or a fresh one, one count more, and the record written back with
     * WRITE set.
     */
    twostate predicate Shares(n: int, mode: string, sb: SuperBlock, found: InodeRecord, new r: Wait<FileTableEntry?>)
      requires old(sb.Valid()) && |found.direct| == DIRECT_SIZE
      reads this, sb, sb.disk
      reads if r.Done? && r.value != null then {r.value, r.value.inode, r.value.inode.direct} else {}
      reads Holding(n)
    {
      && (found.flag & MARKED_FOR_DEATH != 0 ==> r == Done(null) && sb.disk.blocks == old(sb.disk.blocks) && Kept(n))
      && (found.flag & MARKED_FOR_DEATH == 0 && !MayWrite(Lock(found.flag, found.readerCount)) ==>
            r == Blocked && sb.disk.blocks == old(sb.disk.blocks) && Kept(n))
      && (found.flag & MARKED_FOR_DEATH == 0 && MayWrite(Lock(found.flag, found.readerCount)) ==>
            r.Done? && r.value != null && fresh(r.value) && Shared(r.value, n, mode, found)
            && (SharedInode(n) == Some(r.value.inode) || (SharedInode(n) == None && fresh(r.value.inode)))
            && sb.disk.blocks == StoreRecord(old(sb.disk.blocks), n,
                 found.(count := Short(found.count + 1), flag := found.flag | MARKED_FOR_WRITE), sb.totalInodes, sb.totalBlocks))
    }

    /** The table as it was, and the inode falloc would have shared for number `n`, if any, left as it was. */
    twostate predicate Kept(n: int)
      reads this, Holding(n)
    {
      table == old(table) && var i := IndexOf(table, n); i != -1 ==> unchanged(table[i].inode)
    }

    /** falloc for a name the directory knows: share or load its inode, then take one more count. */
    method Share(n: short, mode: string, sb: SuperBlock, ghost found: InodeRecord) returns (r: Wait<FileTableEntry?>)
      requires Valid() && sb.Valid() && found == Found(n, sb)
      modifies this, sb.disk, (var i := IndexOf(table, n); if i != -1 then {table[i].inode} else {})
      ensures Valid() && sb.Valid() && table == old(table) && Shares(n, mode, sb, found, r)
    {
      var inode := Lookup(n, sb);
      r := Hand(inode, n, mode, sb, found);
    }

    /** Share once the inode is at hand: null when it is marked for death, a wait while it is held, else one more count and a new entry. */
    method Hand(inode: Inode, n: short, mode: string, sb: SuperBlock, ghost found: InodeRecord) returns (r: Wait<FileTableEntry?>)
      requires inode.Valid() && sb.Valid() && inode.Record() == found
      modifies this, sb.disk, inode
      ensures sb.Valid() && inode.Valid() && table == old(table)
      ensures found.flag & MARKED_FOR_DEATH != 0 ==> r == Done(null) && sb.disk.blocks == old(sb.disk.blocks) && unchanged(inode)
      ensures found.flag & MARKED_FOR_DEATH == 0 && !MayWrite(Lock(found.flag, found.readerCount)) ==>
        r == Blocked && sb.disk.blocks == old(sb.disk.blocks) && unchanged(inode)
      ensures found.flag & MARKED_FOR_DEATH == 0 && MayWrite(Lock(found.flag, found.readerCount)) ==>
        r.Done? && r.value != null && fresh(r.value) && r.value.inode == inode && Shared(r.value, n, mode, found)
        && sb.disk.blocks == StoreRecord(old(sb.disk.blocks), n,
             found.(count := Short(found.count + 1), flag := found.flag | MARKED_FOR_WRITE), sb.totalInodes, sb.totalBlocks)
    {
      if inode.IsDying() {
        return Done(null);
      }
      if !MayWrite(inode.LockState()) {
        return Blocked;
      }
      ghost var taken := found.(count := Short(found.count + 1), flag := found.flag | MARKED_FOR_WRITE);
      Take(inode, found, taken);
      WriteCycle(Lock(found.flag, found.readerCount));
      var entry := Publish(inode, n, mode, false, sb, taken);
      return Done(entry);
    }

    /** The inode of the first entry with number `n`, or a new Inode(n) read from the device. */
    method Lookup(n: short, sb: SuperBlock) returns (inode: Inode)
      requires Valid() && sb.Valid()
      ensures inode.Valid()
      ensures SharedInode(n) == Some(inode)
        || (SharedInode(n) == None && fresh(inode)
            && inode.Record() == LoadRecord(sb.disk.blocks, n, sb.totalInodes, sb.totalBlocks))
    {
      var tableIndex := Search(n);
      if tableIndex == -1 {
        inode := new Inode.Load(n, sb.totalInodes, sb.totalBlocks, sb.disk);
      } else {
        inode := table[tableIndex].inode;
      }
    }

    /** waitWrite, then one more count on the inode. */
    method Take(inode: Inode, ghost rec: InodeRecord, ghost taken: InodeRecord)
      requires inode.Valid() && MayWrite(inode.LockState()) && inode.Record() == rec
      requires taken == rec.(count := Short(rec.count + 1), flag := rec.flag | MARKED_FOR_WRITE)
      modifies inode
      ensures inode.Record() == taken
    {
      inode.WaitWrite();
      inode.count := Short(inode.count + 1);
    }

    /** The common tail of falloc: toDisk, the new entry of count 1, the table for new files, finishWrite. */
    method Publish(inode: Inode, n: short, mode: string, isNewEntry: bool, sb: SuperBlock, ghost rec: InodeRecord)
      returns (entry: FileTableEntry)
      requires inode.Valid() && sb.Valid() && inode.Record() == rec
      modifies this, inode, sb.disk
      ensures sb.Valid() && inode.Valid()
      ensures fresh(entry) && entry.inode == inode && entry.iNumber == n && entry.count == 1 && entry.mode == mode
      ensures entry.seekPtr == (if IsAppend(mode) then old(inode.length) else 0)
      ensures inode.Record() == rec.(flag := rec.flag ^ MARKED_FOR_WRITE)
      ensures sb.disk.blocks == StoreRecord(old(sb.disk.blocks), n, rec, sb.totalInodes, sb.totalBlocks)
      ensures table == if isNewEntry then old(table) + [entry] else old(table)
    {
      var _ := inode.ToDisk(n, sb.totalInodes, sb.totalBlocks, sb.disk);
      entry := Enter(inode, n, mode, isNewEntry);
      inode.FinishWrite();
    }

    /** The entry falloc returns, appended to the table for a new file. */
    method Enter(inode: Inode, n: short, mode: string, isNewEntry: bool) returns (entry: FileTableEntry)
      modifies this
      ensures fresh(entry) && entry.inode == inode && entry.iNumber == n && entry.count == 1 && entry.mode == mode
      ensures entry.seekPtr == (if IsAppend(mode) then inode.length else 0)
      ensures table == if isNewEntry then old(table) + [entry] else old(table)
    {
      entry := new FileTableEntry(inode, n, mode);
      entry.count := 1;
      if isNewEntry {
        table := table + [entry];
      }
    }

    /**
     * What ffree does to the entry it found and to that entry's inode: one
     * count fewer each, the lock as it was, and the record written back with
     * WRITE still set.
     */
    ghost predicate Released(entry: FileTableEntry, sb: SuperBlock, count: int32, rec: InodeRecord, blocks: seq<seq<byte>>)
      reads entry, entry.inode, entry.inode.direct, sb, sb.disk
      requires entry.inode.Valid() && |rec.direct| == DIRECT_SIZE && AllBlocks(blocks)
    {
      var after := rec.(count := Short(rec.count - 1));
      entry.count == Int32(count - 1)
      && entry.inode.Record() == after
      && sb.disk.blocks == StoreRecord(blocks, entry.iNumber, after.(flag := after.flag | MARKED_FOR_WRITE), sb.totalInodes, sb.totalBlocks)
    }

    /** ffree once it found `entry` and got past waitWrite: the counts, the write-back, finishWrite. */
    method Release(entry: FileTableEntry, sb: SuperBlock)
      requires entry.inode.Valid() && sb.Valid() && MayWrite(entry.inode.LockState())
      modifies entry, entry.inode, sb.disk
      ensures sb.Valid()
      ensures Released(entry, sb, old(entry.count), old(entry.inode.Record()), old(sb.disk.blocks))
    {
      entry.inode.WaitWrite();
      entry.count := Int32(entry.count - 1);
      entry.inode.count := Short(entry.inode.count - 1);
      ghost var locked := entry.inode.Record();
      var _ := entry.inode.ToDisk(entry.iNumber, sb.totalInodes, sb.totalBlocks, sb.disk);
      entry.inode.FinishWrite();
    }

    /**
     * ffree: false when no entry has e's number. Otherwise the first such
     * entry and its inode each lose one count (not necessarily `e` itself),
     * the entry leaves the table exactly when the inode count reaches 0, and
     * the inode is written back with WRITE still set.
     */
    method Ffree(e: FileTableEntry, sb: SuperBlock) returns (r: Wait<bool>)
      requires Valid() && sb.Valid()
      modifies this, Holder(e), sb.disk
      ensures Valid() && sb.Valid()
      ensures var i := IndexOf(old(table), e.iNumber);
        if i == -1 then
          r == Done(false) && table == old(table) && sb.disk.blocks == old(sb.disk.blocks)
        else if !MayWrite(old(table[i].inode.LockState())) then
          r == Blocked && table == old(table) && sb.disk.blocks == old(sb.disk.blocks)
          && unchanged(old(table[i]), old(table[i].inode))
        else
          var entry := old(table[i]);
          r == Done(true) && Released(entry, sb, old(entry.count), old(entry.inode.Record()), old(sb.disk.blocks))
          && table == (if entry.inode.count == 0 then RemoveAt(old(table), i) else old(table))
    {
      var tableIndex := Search(e.iNumber);
      if tableIndex == -1 {
        return Done(false);
      }
      var entry := table[tableIndex];
      if !MayWrite(entry.inode.LockState()) {
        return Blocked;
      }
      ghost var before := entry.inode.Record();
      ghost var blocks := sb.disk.blocks;
      ghost var count := entry.count;
      Release(entry, sb);
      assert Released(entry, sb, count, before, blocks);
      if entry.inode.count == 0 {
        table := RemoveAt(table, tableIndex);
      }
      return Done(true);
    }

    /** fempty. */
    function Fempty(): (r: bool)
      reads this
      ensures r <==> |table| == 0
    {
      table == []
    }
  }
}

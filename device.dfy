/**
 * The raw block device under the file system (Disk and the SysLib
 * cread/cwrite/rawread/rawwrite calls). Neither is part of this model; they
 * are represented by a sequence of 512-byte blocks. A read or write of an index
 * outside [0, number of blocks) fails with status -1 and touches nothing; the
 * cache (cread/cwrite) and the raw calls (rawread/rawwrite) see the same blocks.
 */
module Device {
  import opened JavaInts
  import opened Options

  const BLOCK_SIZE: int := 512

  /** A block buffer as `new byte[Disk.blockSize]` creates it. */
  function Zeros(n: nat): (z: seq<byte>)
    ensures |z| == n
    ensures forall k | 0 <= k < n :: z[k] == 0
  {
    seq(n, _ => 0)
  }

  /** A block write that fails silently outside the device, as the callers that ignore the status see it. */
  function Store(blocks: seq<seq<byte>>, i: int, data: seq<byte>): (r: seq<seq<byte>>)
    ensures |r| == |blocks|
    ensures 0 <= i < |blocks| ==> r[i] == data
    ensures forall j | 0 <= j < |blocks| && j != i :: r[j] == blocks[j]
  {
    if 0 <= i < |blocks| then blocks[i := data] else blocks
  }

  /** Every block of the device holds exactly BLOCK_SIZE bytes. */
  ghost predicate AllBlocks(blocks: seq<seq<byte>>)
  {
    forall i | 0 <= i < |blocks| :: |blocks[i]| == BLOCK_SIZE
  }

  lemma StoreKeepsBlocks(blocks: seq<seq<byte>>, i: int, data: seq<byte>)
    requires AllBlocks(blocks) && |data| == BLOCK_SIZE
    ensures AllBlocks(Store(blocks, i, data))
  {
  }

  class Disk {
    var blocks: seq<seq<byte>>

    ghost predicate Valid()
      reads this
    {
      AllBlocks(blocks) && |blocks| < TWO_31
    }

    /** cread / rawread: the block at index `i`, if the device has one. */
    function Read(i: int): (r: Option<seq<byte>>)
      reads this
      requires Valid()
      ensures r.Some? <==> 0 <= i < |blocks|
      ensures r.Some? ==> r.value == blocks[i] && |r.value| == BLOCK_SIZE
    {
      if 0 <= i < |blocks| then Some(blocks[i]) else None
    }

    /** cread / rawread into a caller's buffer: copied on success, untouched on failure. */
    method ReadInto(i: int, buf: array<byte>) returns (status: int)
      requires Valid() && buf.Length == BLOCK_SIZE
      modifies buf
      ensures status == (if 0 <= i < |blocks| then 0 else -1)
      ensures buf[..] == if 0 <= i < |blocks| then blocks[i] else old(buf[..])
    {
      if 0 <= i < |blocks| {
        forall k | 0 <= k < BLOCK_SIZE {
          buf[k] := blocks[i][k];
        }
        status := 0;
      } else {
        status := -1;
      }
    }

    /** cwrite / rawwrite: 0 and the block replaced, or -1 and nothing written. */
    method Write(i: int, data: seq<byte>) returns (status: int)
      requires Valid() && |data| == BLOCK_SIZE
      modifies this
      ensures Valid()
      ensures status == (if 0 <= i < |old(blocks)| then 0 else -1)
      ensures blocks == Store(old(blocks), i, data)
    {
      if 0 <= i < |blocks| {
        blocks := blocks[i := data];
        status := 0;
      } else {
        status := -1;
      }
    }
  }
}

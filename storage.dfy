/** The emulated block device: NUM_BLOCKS blocks of BLOCK_SIZE bytes each,
    read and written whole, with a range check on the block number. */
module Storage {

  /// A block has 4K.  Divisions, remainders and products by the block size
  /// are written with the literal 4096 throughout, which keeps them linear
  /// for the solver.
  const BLOCK_SIZE: nat := 4096
  /// The device has 16K blocks.
  const NUM_BLOCKS: nat := 16384
  /// Total device size in bytes (64 MiB).
  const DEVICE_SIZE: nat := 16384 * 4096

  type byte = bv8

  /** A device image: one byte sequence per block. */
  ghost predicate IsDisk(d: seq<seq<byte>>) {
    |d| == NUM_BLOCKS && forall n :: 0 <= n < |d| ==> |d[n]| == BLOCK_SIZE
  }

  /** The all-zero block. */
  function ZeroBlock(): (z: seq<byte>)
    ensures |z| == BLOCK_SIZE
    ensures forall o :: 0 <= o < |z| ==> z[o] == 0
  {
    seq(BLOCK_SIZE, _ => 0)
  }

  /** The device as one flat byte buffer: byte `a` lives in block a / BLOCK_SIZE
      at offset a % BLOCK_SIZE. */
  ghost function DeviceByte(d: seq<seq<byte>>, a: nat): byte
    requires IsDisk(d) && a < DEVICE_SIZE
  {
    d[a / 4096][a % 4096]
  }

  /** The device image after a write of `data` to block n: block n is replaced
      when it is on the device; otherwise nothing changes. */
  function Store(d: seq<seq<byte>>, n: nat, data: seq<byte>): (d': seq<seq<byte>>)
    requires IsDisk(d) && |data| == BLOCK_SIZE
    ensures IsDisk(d')
    ensures forall m :: 0 <= m < NUM_BLOCKS ==> d'[m] == if m == n then data else d[m]
  {
    if n < NUM_BLOCKS then d[n := data] else d
  }

  class Device {
    /// Block n of the device; the array itself never changes, its blocks do.
    const blocks: array<seq<byte>>

    ghost predicate Valid()
      reads this, blocks
    {
      blocks.Length == NUM_BLOCKS &&
      forall n :: 0 <= n < blocks.Length ==> |blocks[n]| == BLOCK_SIZE
    }

    /** The current device image. */
    ghost function Disk(): seq<seq<byte>>
      reads this, blocks
    {
      blocks[..]
    }

    /** A zero-filled device (the allocation itself is not modelled). */
    constructor ()
      ensures Valid() && fresh(blocks)
      ensures forall n :: 0 <= n < NUM_BLOCKS ==> blocks[n] == ZeroBlock()
    {
      blocks := new seq<byte>[NUM_BLOCKS](_ => ZeroBlock());
    }

    /** storage_read_block: the caller's BLOCK_SIZE-byte buffer receives a copy
        of block n; out of range, the buffer is left as it was. */
    method ReadBlock(n: nat, buffer: seq<byte>) returns (rc: int, filled: seq<byte>)
      requires Valid() && |buffer| == BLOCK_SIZE
      ensures n < NUM_BLOCKS ==> rc == 0 && filled == blocks[n]
      ensures n >= NUM_BLOCKS ==> rc == -1 && filled == buffer
      ensures |filled| == BLOCK_SIZE
    {
      if n >= NUM_BLOCKS {
        return -1, buffer;
      }
      return 0, blocks[n];
    }

    /** storage_write_block: replace block n by the caller's buffer; out of
        range, nothing changes. */
    method WriteBlock(n: nat, buffer: seq<byte>) returns (rc: int)
      requires Valid() && |buffer| == BLOCK_SIZE
      modifies blocks
      ensures Valid()
      ensures n < NUM_BLOCKS ==> rc == 0 && Disk() == old(Disk())[n := buffer]
      ensures n >= NUM_BLOCKS ==> rc == -1 && Disk() == old(Disk())
      ensures Disk() == Store(old(Disk()), n, buffer)
    {
      if n >= NUM_BLOCKS {
        return -1;
      }
      blocks[n] := buffer;
      return 0;
    }
  }

  /** Writing block n then reading it yields the written bytes; every other
      block reads as before. */
  lemma WriteThenRead(d: seq<seq<byte>>, n: nat, data: seq<byte>, m: nat)
    requires IsDisk(d) && n < NUM_BLOCKS && |data| == BLOCK_SIZE && m < NUM_BLOCKS
    ensures IsDisk(d[n := data])
    ensures d[n := data][m] == if m == n then data else d[m]
  {
  }

  /** In the flat view, an in-range write of block n replaces exactly the bytes
      [n * BLOCK_SIZE, (n + 1) * BLOCK_SIZE). */
  lemma WriteFlatBytes(d: seq<seq<byte>>, n: nat, data: seq<byte>, a: nat)
    requires IsDisk(d) && n < NUM_BLOCKS && |data| == BLOCK_SIZE && a < DEVICE_SIZE
    ensures IsDisk(d[n := data])
    ensures n * 4096 <= a < (n + 1) * 4096 ==> DeviceByte(d[n := data], a) == data[a - n * 4096]
    ensures !(n * 4096 <= a < (n + 1) * 4096) ==> DeviceByte(d[n := data], a) == DeviceByte(d, a)
  {
  }
}

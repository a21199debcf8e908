/** The bitmap allocator: one bit per block, stored in bitmap blocks that follow
    the inode blocks on the device.  Bit k of byte j of bitmap block i is the
    scan position Pos(i, j, k); a set bit means "in use". */
module Bitmap {
  import opened Storage

  /// Bits held by one bitmap block.
  const BITS_PER_BLOCK: nat := 8 * 4096

  /** A scan position: bitmap block i, byte j of that block, bit k of that byte. */
  datatype Pos = Pos(i: nat, j: nat, k: nat)

  /** How a scan position is turned into a block number.  AsWritten is the
      allocator's formula, whose block stride is BLOCK_SIZE; Intended is the
      inverse of the decomposition that deallocation uses (stride
      8 * BLOCK_SIZE) and also keeps the result at or below last_allocatable. */
  datatype Scheme = AsWritten | Intended

  /** The allocator's four globals, as a value. */
  datatype Layout = Layout(firstBlock: nat, numberBlocks: nat, firstAllocatable: nat, lastAllocatable: nat)

  /** The bitmap lies on the device and the last allocatable block is a block of it. */
  ghost predicate LayoutOk(L: Layout) {
    L.firstBlock + L.numberBlocks <= NUM_BLOCKS && L.lastAllocatable < NUM_BLOCKS
  }

  ghost predicate InBitmap(L: Layout, p: Pos) {
    p.i < L.numberBlocks && p.j < BLOCK_SIZE && p.k < 8
  }

  /** Strictly earlier in scan order (block, then byte, then bit). */
  predicate Before(q: Pos, p: Pos) {
    q.i < p.i || (q.i == p.i && (q.j < p.j || (q.j == p.j && q.k < p.k)))
  }

  /** The block number the allocator reports for a position, as written. */
  function ScanNumber(p: Pos): nat {
    p.i * BLOCK_SIZE + p.j * 8 + p.k
  }

  /** The block number whose bit sits at position p. */
  function BitNumber(p: Pos): nat {
    p.i * BITS_PER_BLOCK + p.j * 8 + p.k
  }

  /** The position of block b's bit, as deallocation computes it. */
  function Locate(b: nat): (p: Pos)
    ensures p.j < BLOCK_SIZE && p.k < 8
  {
    Pos(b / BITS_PER_BLOCK, (b % BITS_PER_BLOCK) / 8, (b % BITS_PER_BLOCK) % 8)
  }

  function Number(s: Scheme, p: Pos): nat {
    match s
    case AsWritten => ScanNumber(p)
    case Intended => BitNumber(p)
  }

  /** The single-bit mask 1 << k. */
  function Mask(k: nat): byte
    requires k < 8
  {
    (1 as byte) << k
  }

  ghost predicate Eligible(L: Layout, s: Scheme, n: nat) {
    L.firstAllocatable <= n && (s == Intended ==> n <= L.lastAllocatable)
  }

  /** The bit at position p is set. */
  ghost predicate Used(d: seq<seq<byte>>, L: Layout, p: Pos)
    requires IsDisk(d) && LayoutOk(L) && InBitmap(L, p)
  {
    d[L.firstBlock + p.i][p.j] & Mask(p.k) != 0
  }

  /** Position p may be handed out: its number is eligible and its bit is clear. */
  ghost predicate Candidate(d: seq<seq<byte>>, L: Layout, s: Scheme, p: Pos)
    requires IsDisk(d) && LayoutOk(L) && InBitmap(L, p)
  {
    Eligible(L, s, Number(s, p)) && !Used(d, L, p)
  }

  /** The first candidate at or after Pos(i, j, k) in scan order, if any. */
  ghost function FirstFree(d: seq<seq<byte>>, L: Layout, s: Scheme, i: nat, j: nat, k: nat): (r: Option<Pos>)
    requires IsDisk(d) && LayoutOk(L) && j <= BLOCK_SIZE && k <= 8
    ensures r.Some? ==> InBitmap(L, r.value) && Candidate(d, L, s, r.value) && !Before(r.value, Pos(i, j, k))
    decreases L.numberBlocks - i, BLOCK_SIZE - j, 8 - k
  {
    if i >= L.numberBlocks then None
    else if j == BLOCK_SIZE then FirstFree(d, L, s, i + 1, 0, 0)
    else if k == 8 then FirstFree(d, L, s, i, j + 1, 0)
    else if Candidate(d, L, s, Pos(i, j, k)) then Some(Pos(i, j, k))
    else FirstFree(d, L, s, i, j, k + 1)
  }

  /** One step of the scan inside a byte. */
  lemma FirstFreeAt(d: seq<seq<byte>>, L: Layout, s: Scheme, i: nat, j: nat, k: nat)
    requires IsDisk(d) && LayoutOk(L) && i < L.numberBlocks && j < BLOCK_SIZE && k < 8
    ensures FirstFree(d, L, s, i, j, k) ==
            if Candidate(d, L, s, Pos(i, j, k)) then Some(Pos(i, j, k)) else FirstFree(d, L, s, i, j, k + 1)
  {
  }

  lemma CandidateAt(d: seq<seq<byte>>, L: Layout, s: Scheme, p: Pos, eligible: bool, clear: bool)
    requires IsDisk(d) && LayoutOk(L) && InBitmap(L, p)
    requires eligible == (L.firstAllocatable <= Number(s, p) && (s == Intended ==> Number(s, p) <= L.lastAllocatable))
    requires clear == (d[L.firstBlock + p.i][p.j] & Mask(p.k) == 0)
    ensures Candidate(d, L, s, p) == (eligible && clear)
  {
  }

  datatype Option<T> = None | Some(value: T)

  /** The device after the bit at position p is set. */
  ghost function SetBit(d: seq<seq<byte>>, L: Layout, p: Pos): (d': seq<seq<byte>>)
    requires IsDisk(d) && LayoutOk(L) && InBitmap(L, p)
    ensures IsDisk(d')
  {
    var n := L.firstBlock + p.i;
    d[n := d[n][p.j := d[n][p.j] | Mask(p.k)]]
  }

  /** What one allocation does: the new device and the returned number (-1 if none). */
  ghost function AllocateSpec(d: seq<seq<byte>>, L: Layout, s: Scheme): (r: (seq<seq<byte>>, int))
    requires IsDisk(d) && LayoutOk(L)
    ensures IsDisk(r.0) && r.1 >= -1
  {
    match FirstFree(d, L, s, 0, 0, 0)
    case None => (d, -1)
    case Some(p) => (SetBit(d, L, p), Number(s, p) as int)
  }

  /** What one deallocation does: the bitmap block holding b's bit is read and
      the bit cleared; AsWritten writes the result to block b / BITS_PER_BLOCK,
      Intended back to the bitmap block it came from. */
  ghost function DeallocateSpec(d: seq<seq<byte>>, L: Layout, s: Scheme, b: nat): (d': seq<seq<byte>>)
    requires IsDisk(d) && LayoutOk(L) && L.firstBlock + b / BITS_PER_BLOCK < NUM_BLOCKS
    ensures IsDisk(d')
  {
    var p := Locate(b);
    var target := if s == AsWritten then p.i else L.firstBlock + p.i;
    d[target := Cleared(d, L, p)]
  }

  /** The bitmap block holding the bit at p, with that bit cleared. */
  ghost function Cleared(d: seq<seq<byte>>, L: Layout, p: Pos): seq<byte>
    requires IsDisk(d) && L.firstBlock + p.i < NUM_BLOCKS && p.j < BLOCK_SIZE && p.k < 8
  {
    var source := L.firstBlock + p.i;
    d[source][p.j := d[source][p.j] & !Mask(p.k)]
  }

  /** The byte loop of bitmap_allocate_block over bitmap block i: the first
      position of the block whose number is eligible and whose bit is clear,
      if any. */
  method ScanBlock(ghost d: seq<seq<byte>>, ghost L: Layout, s: Scheme, block: seq<byte>, i: nat, firstAllocatable: nat, lastAllocatable: nat)
    returns (found: bool, j: nat, k: nat)
    requires IsDisk(d) && LayoutOk(L) && i < L.numberBlocks && block == d[L.firstBlock + i]
    requires firstAllocatable == L.firstAllocatable && lastAllocatable == L.lastAllocatable
    ensures found ==> j < BLOCK_SIZE && k < 8 && FirstFree(d, L, s, i, 0, 0) == Some(Pos(i, j, k))
    ensures !found ==> FirstFree(d, L, s, i, 0, 0) == FirstFree(d, L, s, i + 1, 0, 0)
  {
    j := 0;
    while j < BLOCK_SIZE
      invariant j <= BLOCK_SIZE
      invariant FirstFree(d, L, s, i, 0, 0) == FirstFree(d, L, s, i, j, 0)
    {
      found, k := ScanByte(d, L, s, block[j], i, j, firstAllocatable, lastAllocatable);
      if found {
        return;
      }
      j := j + 1;
    }
    return false, 0, 0;
  }

  /** The bit loop of bitmap_allocate_block over byte j of bitmap block i. */
  method ScanByte(ghost d: seq<seq<byte>>, ghost L: Layout, s: Scheme, b: byte, i: nat, j: nat, firstAllocatable: nat, lastAllocatable: nat)
    returns (found: bool, k: nat)
    requires IsDisk(d) && LayoutOk(L) && i < L.numberBlocks && j < BLOCK_SIZE && b == d[L.firstBlock + i][j]
    requires firstAllocatable == L.firstAllocatable && lastAllocatable == L.lastAllocatable
    ensures found ==> k < 8 && FirstFree(d, L, s, i, j, 0) == Some(Pos(i, j, k))
    ensures !found ==> FirstFree(d, L, s, i, j, 0) == FirstFree(d, L, s, i, j + 1, 0)
  {
    k := 0;
    while k < 8
      invariant k <= 8
      invariant FirstFree(d, L, s, i, j, 0) == FirstFree(d, L, s, i, j, k)
    {
      var referenced := Number(s, Pos(i, j, k));
      var eligible := firstAllocatable <= referenced && (s == Intended ==> referenced <= lastAllocatable);
      var clear := b & Mask(k) == 0;
      FirstFreeAt(d, L, s, i, j, k);
      CandidateAt(d, L, s, Pos(i, j, k), eligible, clear);
      if eligible && clear {
        return true, k;
      }
      k := k + 1;
    }
    return false, 0;
  }

  class Allocator {
    const dev: Device
    /// bitmap_first_block: first disk block of the bitmap.
    var firstBlock: nat
    /// bitmap_number_blocks: how many blocks the bitmap occupies.
    var numberBlocks: nat
    /// first_allocatable: first block after the inode and bitmap blocks.
    var firstAllocatable: nat
    /// last_allocatable: the last block of the disk.
    var lastAllocatable: nat

    ghost function Globals(): Layout
      reads this
    {
      Layout(firstBlock, numberBlocks, firstAllocatable, lastAllocatable)
    }

    ghost predicate Valid()
      reads this, dev, dev.blocks
    {
      dev.Valid() && LayoutOk(Globals())
    }

    /** The globals start zeroed, as static storage does. */
    constructor (device: Device)
      requires device.Valid()
      ensures Valid() && dev == device
      ensures Globals() == Layout(0, 0, 0, 0)
    {
      dev := device;
      firstBlock, numberBlocks, firstAllocatable, lastAllocatable := 0, 0, 0, 0;
    }

    /** bitmap_init: the bitmap follows the inode blocks; allocatable blocks
        start after both regions and end at the last block of the disk. */
    method Init(numberInodeBlocks: nat, numberBitmapBlocks: nat, numberDiskBlocks: nat)
      requires dev.Valid()
      requires numberInodeBlocks + numberBitmapBlocks <= numberDiskBlocks <= NUM_BLOCKS && 0 < numberDiskBlocks
      modifies this
      ensures Valid()
      ensures firstBlock == numberInodeBlocks && numberBlocks == numberBitmapBlocks
      ensures firstAllocatable == numberInodeBlocks + numberBitmapBlocks
      ensures lastAllocatable == numberDiskBlocks - 1
    {
      firstBlock := numberInodeBlocks;
      numberBlocks := numberBitmapBlocks;
      firstAllocatable := numberInodeBlocks + numberBitmapBlocks;
      lastAllocatable := numberDiskBlocks - 1;
    }

    /** bitmap_allocate_block, as written: scan bitmap blocks, bytes and bits for
        the first clear bit whose ScanNumber is at least first_allocatable, set
        it, write that bitmap block back and return the number; -1 if none. */
    method Allocate() returns (r: int)
      requires Valid()
      modifies dev.blocks
      ensures Valid()
      ensures (dev.Disk(), r) == AllocateSpec(old(dev.Disk()), Globals(), AsWritten)
    {
      r := AllocateWith(AsWritten);
    }

    /** bitmap_deallocate_block, as written: reads the bitmap block holding the
        bit, clears it, and writes the block to block number
        blockNumber / BITS_PER_BLOCK, without the bitmap's offset. */
    method Deallocate(blockNumber: nat)
      requires Valid() && firstBlock + blockNumber / BITS_PER_BLOCK < NUM_BLOCKS
      modifies dev.blocks
      ensures Valid()
      ensures dev.Disk() == DeallocateSpec(old(dev.Disk()), Globals(), AsWritten, blockNumber)
    {
      var diskBlockNumber := blockNumber / BITS_PER_BLOCK;
      var diskBlockOffset := blockNumber % BITS_PER_BLOCK;
      var diskBlockByte := diskBlockOffset / 8;
      var diskBlockBit := diskBlockOffset % 8;
      var block := ZeroBlock();
      var rc;
      rc, block := dev.ReadBlock(firstBlock + diskBlockNumber, block);
      block := block[diskBlockByte := block[diskBlockByte] & !Mask(diskBlockBit)];
      rc := dev.WriteBlock(diskBlockNumber, block);
    }

    /** The allocator with both numbering defects corrected: a position's number
        is BitNumber (stride 8 * BLOCK_SIZE per bitmap block) and it is handed
        out only when it lies in [first_allocatable, last_allocatable]. */
    method AllocateIntended() returns (r: int)
      requires Valid()
      modifies dev.blocks
      ensures Valid()
      ensures (dev.Disk(), r) == AllocateSpec(old(dev.Disk()), Globals(), Intended)
    {
      r := AllocateWith(Intended);
    }

    /** The allocation loop over the bitmap blocks: each block is read and
        scanned; at the first candidate its bit is set, the block written back
        and the number returned. */
    method AllocateWith(s: Scheme) returns (r: int)
      requires Valid()
      modifies dev.blocks
      ensures Valid()
      ensures (dev.Disk(), r) == AllocateSpec(old(dev.Disk()), Globals(), s)
    {
      ghost var d := dev.Disk();
      ghost var L := Globals();
      var block := ZeroBlock();
      var i := 0;
      while i < numberBlocks
        invariant i <= numberBlocks
        invariant dev.Valid() && dev.Disk() == d && |block| == BLOCK_SIZE
        invariant FirstFree(d, L, s, 0, 0, 0) == FirstFree(d, L, s, i, 0, 0)
      {
        var rc;
        rc, block := dev.ReadBlock(i + firstBlock, block);
        var found, j, k := ScanBlock(d, L, s, block, i, firstAllocatable, lastAllocatable);
        if found {
          block := block[j := block[j] | Mask(k)];
          rc := dev.WriteBlock(i + firstBlock, block);
          return Number(s, Pos(i, j, k));
        }
        i := i + 1;
      }
      return -1;
    }

    /** Deallocation with the write target corrected: the updated bitmap block
        goes back to the bitmap block it was read from. */
    method DeallocateIntended(blockNumber: nat)
      requires Valid() && firstBlock + blockNumber / BITS_PER_BLOCK < NUM_BLOCKS
      modifies dev.blocks
      ensures Valid()
      ensures dev.Disk() == DeallocateSpec(old(dev.Disk()), Globals(), Intended, blockNumber)
    {
      var diskBlockNumber := blockNumber / BITS_PER_BLOCK;
      var diskBlockOffset := blockNumber % BITS_PER_BLOCK;
      var diskBlockByte := diskBlockOffset / 8;
      var diskBlockBit := diskBlockOffset % 8;
      var block := ZeroBlock();
      var rc;
      rc, block := dev.ReadBlock(firstBlock + diskBlockNumber, block);
      block := block[diskBlockByte := block[diskBlockByte] & !Mask(diskBlockBit)];
      rc := dev.WriteBlock(firstBlock + diskBlockNumber, block);
    }
  }

  /** No position between Pos(i, j, k) and the first candidate found from
      there is itself a candidate. */
  lemma {:induction false} FirstFreeIsFirst(d: seq<seq<byte>>, L: Layout, s: Scheme, i: nat, j: nat, k: nat, q: Pos)
    requires IsDisk(d) && LayoutOk(L) && j <= BLOCK_SIZE && k <= 8
    requires InBitmap(L, q) && !Before(q, Pos(i, j, k))
    requires FirstFree(d, L, s, i, j, k).Some? ==> Before(q, FirstFree(d, L, s, i, j, k).value)
    ensures !Candidate(d, L, s, q)
    decreases L.numberBlocks - i, BLOCK_SIZE - j, 8 - k
  {
    if i >= L.numberBlocks {
      assert false;
    } else if j == BLOCK_SIZE {
      FirstFreeIsFirst(d, L, s, i + 1, 0, 0, q);
    } else if k == 8 {
      FirstFreeIsFirst(d, L, s, i, j + 1, 0, q);
    } else if Candidate(d, L, s, Pos(i, j, k)) {
      assert false;
    } else if q != Pos(i, j, k) {
      FirstFreeIsFirst(d, L, s, i, j, k + 1, q);
    }
  }

  /** A candidate with no earlier candidate is what the scan finds. */
  lemma FirstFreeUnique(d: seq<seq<byte>>, L: Layout, s: Scheme, p: Pos)
    requires IsDisk(d) && LayoutOk(L) && InBitmap(L, p) && Candidate(d, L, s, p)
    requires forall q :: InBitmap(L, q) && Before(q, p) ==> !Candidate(d, L, s, q)
    ensures FirstFree(d, L, s, 0, 0, 0) == Some(p)
  {
    var r := FirstFree(d, L, s, 0, 0, 0);
    if r.None? || Before(p, r.value) {
      FirstFreeIsFirst(d, L, s, 0, 0, 0, p);
      assert false;
    }
  }

  lemma SetMaskOnly(b: byte, k: nat, k': nat)
    requires k < 8 && k' < 8
    ensures (b | Mask(k)) & Mask(k') != 0 <==> (k' == k || b & Mask(k') != 0)
  {
  }

  lemma ClearMaskOnly(b: byte, k: nat, k': nat)
    requires k < 8 && k' < 8
    ensures (b & !Mask(k)) & Mask(k') != 0 <==> (k' != k && b & Mask(k') != 0)
  {
  }

  lemma ClearUndoesSet(b: byte, m: byte)
    requires b & m == 0
    ensures (b | m) & !m == b
  {
  }

  /** Setting the bit at p changes that bit and no other bit of the bitmap. */
  lemma SetBitEffect(d: seq<seq<byte>>, L: Layout, p: Pos, q: Pos)
    requires IsDisk(d) && LayoutOk(L) && InBitmap(L, p) && InBitmap(L, q)
    ensures IsDisk(SetBit(d, L, p))
    ensures Used(SetBit(d, L, p), L, q) <==> (q == p || Used(d, L, q))
  {
    var d' := SetBit(d, L, p);
    var n, m := L.firstBlock + p.i, L.firstBlock + q.i;
    var b := d[n][p.j];
    assert d'[n][p.j] == b | Mask(p.k);
    if q.i == p.i && q.j == p.j {
      SetMaskOnly(b, p.k, q.k);
    } else {
      assert d'[m][q.j] == d[m][q.j];
    }
  }

  /** Allocation fails exactly when no position is a candidate, and then the
      device is unchanged. */
  lemma AllocateFails(d: seq<seq<byte>>, L: Layout, s: Scheme)
    requires IsDisk(d) && LayoutOk(L)
    ensures AllocateSpec(d, L, s).1 == -1 <==> forall q :: InBitmap(L, q) ==> !Candidate(d, L, s, q)
    ensures AllocateSpec(d, L, s).1 == -1 ==> AllocateSpec(d, L, s).0 == d
  {
    if FirstFree(d, L, s, 0, 0, 0).None? {
      forall q | InBitmap(L, q) ensures !Candidate(d, L, s, q) {
        FirstFreeIsFirst(d, L, s, 0, 0, 0, q);
      }
    }
  }

  /** A successful allocation returns the number of a position at or above
      first_allocatable whose bit was clear; afterwards that bit is set, every
      other bit is as it was, and only that position's bitmap block changed. */
  lemma AllocateSetsOneBit(d: seq<seq<byte>>, L: Layout, s: Scheme)
    requires IsDisk(d) && LayoutOk(L) && AllocateSpec(d, L, s).1 != -1
    ensures var p := FirstFree(d, L, s, 0, 0, 0).value;
            var (d', r) := AllocateSpec(d, L, s);
            && InBitmap(L, p) && r == Number(s, p) && r >= L.firstAllocatable
            && IsDisk(d') && !Used(d, L, p) && Used(d', L, p)
            && (forall q :: InBitmap(L, q) && q != p ==> (Used(d', L, q) <==> Used(d, L, q)))
            && (forall n :: 0 <= n < NUM_BLOCKS && n != L.firstBlock + p.i ==> d'[n] == d[n])
  {
    var p := FirstFree(d, L, s, 0, 0, 0).value;
    forall q | InBitmap(L, q) ensures Used(SetBit(d, L, p), L, q) <==> (q == p || Used(d, L, q)) {
      SetBitEffect(d, L, p, q);
    }
  }

  /** A successful allocation takes the first candidate in scan order. */
  lemma AllocateTakesFirst(d: seq<seq<byte>>, L: Layout, s: Scheme, q: Pos)
    requires IsDisk(d) && LayoutOk(L) && AllocateSpec(d, L, s).1 != -1
    requires InBitmap(L, q) && Before(q, FirstFree(d, L, s, 0, 0, 0).value)
    ensures !Candidate(d, L, s, q)
  {
    FirstFreeIsFirst(d, L, s, 0, 0, 0, q);
  }

  /** Deallocation's decomposition recovers the position from BitNumber. */
  lemma LocateBitNumber(p: Pos)
    requires p.j < BLOCK_SIZE && p.k < 8
    ensures Locate(BitNumber(p)) == p
  {
  }

  /** BitNumber is the inverse of Locate. */
  lemma BitNumberLocate(n: nat)
    ensures BitNumber(Locate(n)) == n
  {
  }

  /** With the intended numbering, scan order is block-number order. */
  lemma BitNumberOrder(q: Pos, p: Pos)
    requires q.j < BLOCK_SIZE && q.k < 8 && p.j < BLOCK_SIZE && p.k < 8
    ensures Before(q, p) <==> BitNumber(q) < BitNumber(p)
  {
  }

  /** The allocator's numbering gives two different bitmap bits the same block
      number: bit 0 of byte 0 of bitmap block 1 and bit 0 of byte 512 of
      bitmap block 0 are both reported as block 4096. */
  lemma ScanNumberCollision()
    ensures ScanNumber(Pos(1, 0, 0)) == ScanNumber(Pos(0, 512, 0)) == 4096
    ensures Locate(4096) == Pos(0, 512, 0)
  {
  }

  /** As written, once every bit of bitmap block 0 whose number is at or above
      first_allocatable is set (blocks first_allocatable .. 32767 handed out),
      the allocator moves to bitmap block 1 and reports block 4096 again,
      although the bit that block 0 (and deallocation) associates with 4096 is
      still set. */
  lemma AsWrittenReissues(d: seq<seq<byte>>, L: Layout)
    requires IsDisk(d) && LayoutOk(L) && L.numberBlocks >= 2 && L.firstAllocatable <= 4096
    requires forall q :: InBitmap(L, q) && q.i == 0 && L.firstAllocatable <= ScanNumber(q) ==> Used(d, L, q)
    requires !Used(d, L, Pos(1, 0, 0))
    ensures AllocateSpec(d, L, AsWritten).1 == 4096
    ensures Used(d, L, Locate(4096)) && Locate(4096) == Pos(0, 512, 0)
  {
    FirstFreeUnique(d, L, AsWritten, Pos(1, 0, 0));
    assert InBitmap(L, Pos(0, 512, 0)) && ScanNumber(Pos(0, 512, 0)) == 4096;
  }

  /** As written, nothing stops the scan at last_allocatable: when the bits of
      bitmap block 0 for blocks first_allocatable .. NUM_BLOCKS - 1 are all
      set, the allocator returns NUM_BLOCKS, a block that is not on the
      device. */
  lemma AsWrittenPastDevice(d: seq<seq<byte>>, L: Layout)
    requires IsDisk(d) && LayoutOk(L) && L.numberBlocks >= 1 && L.firstAllocatable <= NUM_BLOCKS
    requires forall q :: InBitmap(L, q) && q.i == 0 && L.firstAllocatable <= ScanNumber(q) < NUM_BLOCKS ==> Used(d, L, q)
    requires !Used(d, L, Pos(0, NUM_BLOCKS / 8, 0))
    ensures AllocateSpec(d, L, AsWritten).1 == NUM_BLOCKS > L.lastAllocatable
  {
    FirstFreeUnique(d, L, AsWritten, Pos(0, NUM_BLOCKS / 8, 0));
  }

  /** Intended numbering: a successful allocation lies in
      [first_allocatable, last_allocatable], hence on the device. */
  lemma IntendedWithinDevice(d: seq<seq<byte>>, L: Layout)
    requires IsDisk(d) && LayoutOk(L) && AllocateSpec(d, L, Intended).1 != -1
    ensures L.firstAllocatable <= AllocateSpec(d, L, Intended).1 <= L.lastAllocatable < NUM_BLOCKS
  {
  }

  /** Intended numbering: the allocator returns the lowest free block number at
      or above first_allocatable; every block in between is marked used. */
  lemma IntendedTakesLowest(d: seq<seq<byte>>, L: Layout, n: nat)
    requires IsDisk(d) && LayoutOk(L) && AllocateSpec(d, L, Intended).1 != -1
    requires L.firstAllocatable <= n < AllocateSpec(d, L, Intended).1
    ensures InBitmap(L, Locate(n)) && Used(d, L, Locate(n))
  {
    var p := FirstFree(d, L, Intended, 0, 0, 0).value;
    var q := Locate(n);
    BitNumberLocate(n);
    BitNumberOrder(q, p);
    assert InBitmap(L, q);
    FirstFreeIsFirst(d, L, Intended, 0, 0, 0, q);
  }

  /** Intended deallocation clears exactly the bit of block b and keeps every
      other bit. */
  lemma DeallocateFrees(d: seq<seq<byte>>, L: Layout, b: nat, q: Pos)
    requires IsDisk(d) && LayoutOk(L) && b / BITS_PER_BLOCK < L.numberBlocks && InBitmap(L, q)
    ensures IsDisk(DeallocateSpec(d, L, Intended, b)) && InBitmap(L, Locate(b))
    ensures Used(DeallocateSpec(d, L, Intended, b), L, q) <==> (q != Locate(b) && Used(d, L, q))
  {
    var p := Locate(b);
    if q.i == p.i && q.j == p.j {
      ClearMaskOnly(d[L.firstBlock + p.i][p.j], p.k, q.k);
    }
  }

  /** Clearing the bit just set at p gives back p's bitmap block as it was. */
  lemma ClearedAfterSet(d: seq<seq<byte>>, L: Layout, p: Pos)
    requires IsDisk(d) && LayoutOk(L) && InBitmap(L, p) && !Used(d, L, p)
    ensures Cleared(SetBit(d, L, p), L, p) == d[L.firstBlock + p.i]
  {
    var n := L.firstBlock + p.i;
    var b, m := d[n][p.j], Mask(p.k);
    ClearUndoesSet(b, m);
    RestoreByte(d[n], p.j, b | m, (b | m) & !m);
  }

  /** Overwriting a byte, then overwriting it again with its original value,
      gives back the original block. */
  lemma RestoreByte(blk: seq<byte>, j: nat, x: byte, y: byte)
    requires j < |blk| && y == blk[j]
    ensures blk[j := x][j := y] == blk
  {
    assert blk[j := x][j := y] == blk[j := y];
  }

  /** Intended numbering: deallocating the block just allocated restores the
      device exactly. */
  lemma DeallocateUndoesAllocate(d: seq<seq<byte>>, L: Layout)
    requires IsDisk(d) && LayoutOk(L) && AllocateSpec(d, L, Intended).1 != -1
    ensures var (d', r) := AllocateSpec(d, L, Intended);
            IsDisk(d') && r >= 0 && r / BITS_PER_BLOCK < L.numberBlocks && DeallocateSpec(d', L, Intended, r) == d
  {
    var p := FirstFree(d, L, Intended, 0, 0, 0).value;
    var d' := SetBit(d, L, p);
    LocateBitNumber(p);
    ClearedAfterSet(d, L, p);
    var n := L.firstBlock + p.i;
    assert d'[n := d[n]] == d;
  }

  /** As written, deallocating a block whose bitmap block index lies below the
      bitmap (every block number below BITS_PER_BLOCK, since the inode blocks
      come first) leaves every bitmap bit as it was and overwrites block
      b / BITS_PER_BLOCK with a copy of the bitmap block. */
  lemma AsWrittenDeallocateKeepsBitmap(d: seq<seq<byte>>, L: Layout, b: nat, q: Pos)
    requires IsDisk(d) && LayoutOk(L) && b / BITS_PER_BLOCK < L.numberBlocks && InBitmap(L, q)
    requires b / BITS_PER_BLOCK < L.firstBlock
    ensures IsDisk(DeallocateSpec(d, L, AsWritten, b))
    ensures Used(DeallocateSpec(d, L, AsWritten, b), L, q) <==> Used(d, L, q)
    ensures DeallocateSpec(d, L, AsWritten, b)[b / BITS_PER_BLOCK] == Cleared(d, L, Locate(b))
  {
  }
}

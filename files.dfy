/** The inode / indirect-block layer: formatting, file growth, and the file
    operations built on the allocator and on the pointer-block byte ranges.
    Inode records live in blocks 0 .. 7 (128 records per block), the bitmap
    follows, and each used inode names one pointer block of 512 entries.
    Divisions by the block size and by the number of inodes per block are
    written with the literals 4096 and 128 (BLOCK_SIZE and INODES_PER_BLOCK)
    so that the solver sees division by a constant. */
module Files {
  import opened Storage
  import opened Bitmap
  import opened Records
  import opened Pointers

  /** DIV_UP: the quotient rounded up. */
  function DivUp(a: nat, b: nat): nat
    requires b > 0
  {
    if a % b == 0 then a / b else a / b + 1
  }

  /** DIV_UP(a, b) is the least q with a <= q * b. */
  lemma DivUpIsCeiling(a: nat, b: nat)
    requires b > 0
    ensures a <= DivUp(a, b) * b
    ensures DivUp(a, b) == 0 || (DivUp(a, b) - 1) * b < a
  {
    var q, r := a / b, a % b;
    assert a == q * b + r;
    if r == 0 {
      if q > 0 {
        assert (q - 1) * b == q * b - b;
      }
    } else {
      assert (q + 1) * b == q * b + b;
    }
  }

  /** The device after blocks [lo, hi) are overwritten with zeros (blocks past
      the device are skipped by the range check). */
  ghost function Zeroed(d: seq<seq<byte>>, lo: nat, hi: nat): (d': seq<seq<byte>>)
    requires IsDisk(d)
    ensures IsDisk(d')
  {
    var z := ZeroBlock();
    seq(NUM_BLOCKS, m requires 0 <= m < NUM_BLOCKS => if lo <= m < hi then z else d[m])
  }

  lemma ZeroedNone(d: seq<seq<byte>>, lo: nat)
    requires IsDisk(d)
    ensures Zeroed(d, lo, lo) == d
  {
    assert forall m :: 0 <= m < NUM_BLOCKS ==> Zeroed(d, lo, lo)[m] == d[m];
  }

  lemma ZeroedStep(d: seq<seq<byte>>, lo: nat, i: nat)
    requires IsDisk(d) && lo <= i
    ensures Store(Zeroed(d, lo, i), i, ZeroBlock()) == Zeroed(d, lo, i + 1)
  {
    var a, b := Store(Zeroed(d, lo, i), i, ZeroBlock()), Zeroed(d, lo, i + 1);
    assert forall m :: 0 <= m < NUM_BLOCKS ==> a[m] == b[m];
  }

  /** Zeroing [a, b) and then [b, c) zeroes [a, c). */
  lemma ZeroedTwice(d: seq<seq<byte>>, a: nat, b: nat, c: nat)
    requires IsDisk(d) && a <= b <= c
    ensures Zeroed(Zeroed(d, a, b), b, c) == Zeroed(d, a, c)
  {
    var x, y := Zeroed(Zeroed(d, a, b), b, c), Zeroed(d, a, c);
    assert forall m :: 0 <= m < NUM_BLOCKS ==> x[m] == y[m];
  }

  /** The pointer block as a read of block `head` leaves the (zero-initialised)
      buffer: the block's entries, or all zeros when `head` is off the device. */
  ghost function PointersAt(d: seq<seq<byte>>, head: nat): (e: seq<nat>)
    requires IsDisk(d)
    ensures |e| == POINTERS_PER_BLOCK
  {
    DecodePointers(if head < NUM_BLOCKS then d[head] else ZeroBlock())
  }

  /** The allocation loop of ifile_grow from entry i up to entry last: each entry
      receives a freshly allocated block; at the first failed allocation the
      entry receives the sentinel and the loop stops.  The result is the device,
      the entries and the index where the loop stopped (last + 1 if none failed). */
  ghost function Fill(d: seq<seq<byte>>, L: Layout, s: Scheme, e: seq<nat>, i: nat, last: nat): (r: (seq<seq<byte>>, seq<nat>, nat))
    requires IsDisk(d) && LayoutOk(L) && |e| == POINTERS_PER_BLOCK && last < POINTERS_PER_BLOCK
    ensures IsDisk(r.0) && |r.1| == POINTERS_PER_BLOCK && r.2 >= i
    ensures r.2 > last ==> r.2 == i || r.2 == last + 1
    decreases last + 1 - i
  {
    if i > last then (d, e, i)
    else
      var (d1, b) := AllocateSpec(d, L, s);
      if b == -1 then (d1, e[i := NO_BLOCK], i)
      else Fill(d1, L, s, e[i := b], i + 1, last)
  }

  /** The rollback loop of ifile_grow, as written: for j from `from` down to
      current + 1, deallocate block number j (the entry's index, not its
      value) and reset entry j to the sentinel. */
  ghost function Rollback(d: seq<seq<byte>>, L: Layout, e: seq<nat>, j: nat, current: nat): (r: (seq<seq<byte>>, seq<nat>))
    requires IsDisk(d) && LayoutOk(L) && L.firstBlock < NUM_BLOCKS && |e| == POINTERS_PER_BLOCK && j < POINTERS_PER_BLOCK
    ensures IsDisk(r.0) && |r.1| == POINTERS_PER_BLOCK
    decreases j
  {
    if j <= current then (d, e)
    else
      SmallBlockNumber(j);
      Rollback(DeallocateSpec(d, L, AsWritten, j), L, e[j := NO_BLOCK], j - 1, current)
  }

  /** A block number below BITS_PER_BLOCK has its bit in bitmap block 0. */
  lemma SmallBlockNumber(j: nat)
    requires j < POINTERS_PER_BLOCK
    ensures j / BITS_PER_BLOCK == 0 && Locate(j) == Pos(0, j / 8, j % 8)
  {
  }

  /** ifile_grow as written: the device afterwards and the updated inode.
      Entries size / BLOCK_SIZE + 1 .. newSize / BLOCK_SIZE are filled; on a
      failed allocation the rollback runs; either way the pointer block is
      written back and the size set to newSize. */
  ghost function GrowSpec(d: seq<seq<byte>>, L: Layout, ino: Inode, newSize: nat): (r: (seq<seq<byte>>, Inode))
    requires IsDisk(d) && LayoutOk(L) && L.firstBlock < NUM_BLOCKS && newSize < MAX_FILE_SIZE
    ensures IsDisk(r.0)
  {
    WriteBack(GrowEntriesSpec(d, L, ino, newSize), ino, newSize)
  }

  /** The end of ifile_grow: the entries are written to the pointer block and
      the size becomes newSize. */
  ghost function WriteBack(r: (seq<seq<byte>>, seq<nat>), ino: Inode, newSize: nat): (g: (seq<seq<byte>>, Inode))
    requires IsDisk(r.0) && |r.1| == POINTERS_PER_BLOCK
    ensures IsDisk(g.0)
  {
    (Store(r.0, ino.head, EncodePointers(r.1)), ino.(size := newSize))
  }

  /** The device and the pointer entries after ifile_grow's two loops. */
  ghost function GrowEntriesSpec(d: seq<seq<byte>>, L: Layout, ino: Inode, newSize: nat): (r: (seq<seq<byte>>, seq<nat>))
    requires IsDisk(d) && LayoutOk(L) && L.firstBlock < NUM_BLOCKS && newSize < MAX_FILE_SIZE
    ensures IsDisk(r.0) && |r.1| == POINTERS_PER_BLOCK
  {
    RollbackIfFailed(Fill(d, L, AsWritten, PointersAt(d, ino.head), ino.size / 4096 + 1, newSize / 4096), L, ino.size / 4096, newSize / 4096)
  }

  /** The rollback of ifile_grow runs when the allocation loop stopped early. */
  ghost function RollbackIfFailed(f: (seq<seq<byte>>, seq<nat>, nat), L: Layout, current: nat, last: nat): (r: (seq<seq<byte>>, seq<nat>))
    requires IsDisk(f.0) && LayoutOk(L) && L.firstBlock < NUM_BLOCKS && |f.1| == POINTERS_PER_BLOCK && last < POINTERS_PER_BLOCK
    ensures IsDisk(r.0) && |r.1| == POINTERS_PER_BLOCK
  {
    if f.2 <= last then Rollback(f.0, L, f.1, f.2, current) else (f.0, f.1)
  }

  /** Deallocation of block b by the corrected allocator, skipped when b's bit
      would lie past the device (the sentinel, for instance). */
  ghost function ReleaseOne(d: seq<seq<byte>>, L: Layout, b: nat): (d': seq<seq<byte>>)
    requires IsDisk(d) && LayoutOk(L)
    ensures IsDisk(d')
  {
    if L.firstBlock + b / BITS_PER_BLOCK < NUM_BLOCKS then DeallocateSpec(d, L, Intended, b) else d
  }

  /** The corrected rollback: for j from `from` down to current + 1, give back
      the block entry j names. */
  ghost function Release(d: seq<seq<byte>>, L: Layout, e: seq<nat>, j: nat, current: nat): (d': seq<seq<byte>>)
    requires IsDisk(d) && LayoutOk(L) && |e| == POINTERS_PER_BLOCK && j < POINTERS_PER_BLOCK
    ensures IsDisk(d')
    decreases j
  {
    if j <= current then d
    else Release(ReleaseOne(d, L, e[j]), L, e, j - 1, current)
  }

  /** Growth made all-or-nothing: allocation with the corrected allocator;
      on failure the blocks this call allocated are given back, nothing is
      written, the inode is unchanged and the result is -1; on success the
      pointer block is written, the size set and the result is 0. */
  ghost function GrowIntendedSpec(d: seq<seq<byte>>, L: Layout, ino: Inode, newSize: nat): (r: (seq<seq<byte>>, Inode, int))
    requires IsDisk(d) && LayoutOk(L) && newSize < MAX_FILE_SIZE
    ensures IsDisk(r.0)
  {
    Settle(Fill(d, L, Intended, PointersAt(d, ino.head), ino.size / 4096 + 1, newSize / 4096), L, ino, newSize)
  }

  /** The end of the all-or-nothing growth, given the allocation loop's
      device, entries and stopping index. */
  ghost function Settle(f: (seq<seq<byte>>, seq<nat>, nat), L: Layout, ino: Inode, newSize: nat): (r: (seq<seq<byte>>, Inode, int))
    requires IsDisk(f.0) && LayoutOk(L) && |f.1| == POINTERS_PER_BLOCK && newSize < MAX_FILE_SIZE && f.2 > ino.size / 4096
    ensures IsDisk(r.0)
  {
    if f.2 <= newSize / 4096 then (Release(f.0, L, f.1, f.2 - 1, ino.size / 4096), ino, -1)
    else (Store(f.0, ino.head, EncodePointers(f.1)), ino.(size := newSize), 0)
  }

  /** The allocation loop leaves the entries outside [i, last] alone. */
  lemma {:induction false} FillKeeps(d: seq<seq<byte>>, L: Layout, s: Scheme, e: seq<nat>, i: nat, last: nat, t: nat)
    requires IsDisk(d) && LayoutOk(L) && |e| == POINTERS_PER_BLOCK && last < POINTERS_PER_BLOCK
    requires (t < i || last < t) && t < POINTERS_PER_BLOCK
    ensures Fill(d, L, s, e, i, last).1[t] == e[t]
    decreases last + 1 - i
  {
    if i <= last {
      var (d1, b) := AllocateSpec(d, L, s);
      if b != -1 {
        FillKeeps(d1, L, s, e[i := b], i + 1, last, t);
      }
    }
  }

  /** The allocation loop leaves the entries past the index where it stopped
      alone. */
  lemma {:induction false} FillKeepsPast(d: seq<seq<byte>>, L: Layout, s: Scheme, e: seq<nat>, i: nat, last: nat, t: nat)
    requires IsDisk(d) && LayoutOk(L) && |e| == POINTERS_PER_BLOCK && last < POINTERS_PER_BLOCK
    requires Fill(d, L, s, e, i, last).2 < t < POINTERS_PER_BLOCK
    ensures Fill(d, L, s, e, i, last).1[t] == e[t]
    decreases last + 1 - i
  {
    if i <= last {
      var (d1, b) := AllocateSpec(d, L, s);
      if b != -1 {
        FillKeepsPast(d1, L, s, e[i := b], i + 1, last, t);
      }
    }
  }

  /** A bit that is set stays set through the allocation loop. */
  lemma {:induction false} FillKeepsUsed(d: seq<seq<byte>>, L: Layout, s: Scheme, e: seq<nat>, i: nat, last: nat, q: Pos)
    requires IsDisk(d) && LayoutOk(L) && |e| == POINTERS_PER_BLOCK && last < POINTERS_PER_BLOCK
    requires InBitmap(L, q) && Used(d, L, q)
    ensures Used(Fill(d, L, s, e, i, last).0, L, q)
    decreases last + 1 - i
  {
    if i <= last {
      var (d1, b) := AllocateSpec(d, L, s);
      if b != -1 {
        SetBitEffect(d, L, FirstFree(d, L, s, 0, 0, 0).value, q);
        FillKeepsUsed(d1, L, s, e[i := b], i + 1, last, q);
      }
    }
  }

  /** The last step of the corrected rollback is the release of entry lo + 1. */
  lemma {:induction false} ReleaseSplit(d: seq<seq<byte>>, L: Layout, e: seq<nat>, j: nat, lo: nat)
    requires IsDisk(d) && LayoutOk(L) && |e| == POINTERS_PER_BLOCK && lo < j < POINTERS_PER_BLOCK
    ensures Release(d, L, e, j, lo) == ReleaseOne(Release(d, L, e, j, lo + 1), L, e[lo + 1])
    decreases j
  {
    if j > lo + 1 {
      ReleaseSplit(ReleaseOne(d, L, e[j]), L, e, j - 1, lo);
    }
  }

  /** Giving back, last first, the blocks a failed allocation loop took
      restores the device it started from. */
  lemma {:induction false} FillUndone(d: seq<seq<byte>>, L: Layout, e: seq<nat>, i: nat, last: nat)
    requires IsDisk(d) && LayoutOk(L) && |e| == POINTERS_PER_BLOCK && last < POINTERS_PER_BLOCK && 1 <= i
    ensures var f := Fill(d, L, Intended, e, i, last);
            f.2 <= last ==> Release(f.0, L, f.1, f.2 - 1, i - 1) == d
    decreases last + 1 - i
  {
    if i > last {
      return;
    }
    var (d1, b) := AllocateSpec(d, L, Intended);
    if b == -1 {
      AllocateFails(d, L, Intended);
    } else {
      var e1 := e[i := b];
      var f := Fill(d1, L, Intended, e1, i + 1, last);
      FillUndone(d1, L, e1, i + 1, last);
      FillKeeps(d1, L, Intended, e1, i + 1, last, i);
      ReleaseSplit(f.0, L, f.1, f.2 - 1, i - 1);
      DeallocateUndoesAllocate(d, L);
    }
  }

  /** Every block the allocation loop hands out with the corrected allocator
      lies in [first_allocatable, last_allocatable], was free when the loop
      started and is marked used when it ends; no block is handed out twice. */
  lemma {:induction false} FillAllocates(d: seq<seq<byte>>, L: Layout, e: seq<nat>, i: nat, last: nat)
    requires IsDisk(d) && LayoutOk(L) && |e| == POINTERS_PER_BLOCK && last < POINTERS_PER_BLOCK
    ensures var f := Fill(d, L, Intended, e, i, last);
            forall t :: i <= t < f.2 ==>
              && L.firstAllocatable <= f.1[t] <= L.lastAllocatable && InBitmap(L, Locate(f.1[t]))
              && !Used(d, L, Locate(f.1[t])) && Used(f.0, L, Locate(f.1[t]))
    ensures var f := Fill(d, L, Intended, e, i, last);
            forall t, u :: i <= t < u < f.2 ==> f.1[t] != f.1[u]
    decreases last + 1 - i
  {
    if i <= last {
      var (d1, b) := AllocateSpec(d, L, Intended);
      if b != -1 {
        var e1 := e[i := b];
        var f := Fill(d1, L, Intended, e1, i + 1, last);
        var p := FirstFree(d, L, Intended, 0, 0, 0).value;
        FillAllocates(d1, L, e1, i + 1, last);
        FillKeeps(d1, L, Intended, e1, i + 1, last, i);
        AllocateSetsOneBit(d, L, Intended);
        IntendedWithinDevice(d, L);
        LocateBitNumber(p);
        FillKeepsUsed(d1, L, Intended, e1, i + 1, last, p);
        forall t | i + 1 <= t < f.2
          ensures !Used(d, L, Locate(f.1[t])) && f.1[t] != b
        {
          SetBitEffect(d, L, p, Locate(f.1[t]));
        }
      }
    }
  }

  /** The all-or-nothing growth is the allocation loop followed by Settle. */
  lemma GrowIntendedSettles(d: seq<seq<byte>>, L: Layout, ino: Inode, newSize: nat)
    requires IsDisk(d) && LayoutOk(L) && newSize < MAX_FILE_SIZE
    ensures GrowIntendedSpec(d, L, ino, newSize) ==
            Settle(Fill(d, L, Intended, PointersAt(d, ino.head), ino.size / 4096 + 1, newSize / 4096), L, ino, newSize)
  {
  }

  /** Settle reports success exactly when the allocation loop ran to the end,
      and then writes the pointer block and sets the size. */
  lemma SettleSucceeds(f: (seq<seq<byte>>, seq<nat>, nat), L: Layout, ino: Inode, newSize: nat)
    requires IsDisk(f.0) && LayoutOk(L) && |f.1| == POINTERS_PER_BLOCK && newSize < MAX_FILE_SIZE && f.2 > ino.size / 4096
    requires Settle(f, L, ino, newSize).2 == 0
    ensures f.2 > newSize / 4096
    ensures Settle(f, L, ino, newSize) == (Store(f.0, ino.head, EncodePointers(f.1)), ino.(size := newSize), 0)
  {
  }

  /** The all-or-nothing growth fails only as a whole: the device and the
      inode are exactly as before and the result is -1. */
  lemma GrowIntendedFails(d: seq<seq<byte>>, L: Layout, ino: Inode, newSize: nat)
    requires IsDisk(d) && LayoutOk(L) && newSize < MAX_FILE_SIZE
    requires GrowIntendedSpec(d, L, ino, newSize).2 != 0
    ensures GrowIntendedSpec(d, L, ino, newSize) == (d, ino, -1)
  {
    GrowIntendedSettles(d, L, ino, newSize);
    FillSettleFails(d, L, PointersAt(d, ino.head), ino, newSize);
  }

  /** A failed Settle after the corrected allocation loop gives back the
      device the loop started from. */
  lemma FillSettleFails(d: seq<seq<byte>>, L: Layout, e: seq<nat>, ino: Inode, newSize: nat)
    requires IsDisk(d) && LayoutOk(L) && |e| == POINTERS_PER_BLOCK && newSize < MAX_FILE_SIZE
    requires Settle(Fill(d, L, Intended, e, ino.size / 4096 + 1, newSize / 4096), L, ino, newSize).2 != 0
    ensures Settle(Fill(d, L, Intended, e, ino.size / 4096 + 1, newSize / 4096), L, ino, newSize) == (d, ino, -1)
  {
    FillUndone(d, L, e, ino.size / 4096 + 1, newSize / 4096);
    SettleRestores(Fill(d, L, Intended, e, ino.size / 4096 + 1, newSize / 4096), d, L, ino, newSize);
  }

  /** When the blocks a stopped allocation loop took are given back, a
      failed Settle leaves the device it started from. */
  lemma SettleRestores(f: (seq<seq<byte>>, seq<nat>, nat), d: seq<seq<byte>>, L: Layout, ino: Inode, newSize: nat)
    requires IsDisk(f.0) && LayoutOk(L) && |f.1| == POINTERS_PER_BLOCK && newSize < MAX_FILE_SIZE && ino.size / 4096 < f.2
    requires Settle(f, L, ino, newSize).2 != 0
    requires f.2 <= newSize / 4096 ==> Release(f.0, L, f.1, f.2 - 1, ino.size / 4096) == d
    ensures Settle(f, L, ino, newSize) == (d, ino, -1)
  {
  }

  /** With the corrected allocator every entry stays a 64-bit value. */
  lemma {:induction false} FillPointerBlock(d: seq<seq<byte>>, L: Layout, e: seq<nat>, i: nat, last: nat)
    requires IsDisk(d) && LayoutOk(L) && PointerBlock(e) && last < POINTERS_PER_BLOCK
    ensures PointerBlock(Fill(d, L, Intended, e, i, last).1)
    decreases last + 1 - i
  {
    if i <= last {
      var (d1, b) := AllocateSpec(d, L, Intended);
      if b != -1 {
        IntendedWithinDevice(d, L);
        FillPointerBlock(d1, L, e[i := b], i + 1, last);
      }
    }
  }

  /** A pointer block written to an on-device block reads back unchanged. */
  lemma StoredPointers(d: seq<seq<byte>>, head: nat, e: seq<nat>)
    requires IsDisk(d) && head < NUM_BLOCKS && PointerBlock(e)
    ensures PointersAt(Store(d, head, EncodePointers(e)), head) == e
  {
    PointersRoundTrip(e);
  }

  /** One entry of a written pointer block reads back unchanged. */
  lemma StoredEntry(d: seq<seq<byte>>, head: nat, e: seq<nat>, t: nat)
    requires IsDisk(d) && head < NUM_BLOCKS && |e| == POINTERS_PER_BLOCK && t < POINTERS_PER_BLOCK && e[t] < U64_LIMIT
    ensures PointersAt(Store(d, head, EncodePointers(e)), head)[t] == e[t]
  {
    EncodeEntry(e, t);
    Pow256Of8();
    LittleEndianRoundTrip(e[t], 8);
  }

  /** A successful all-or-nothing growth ran the allocation loop to the end
      and sets the size to newSize. */
  lemma GrowIntendedCompletes(d: seq<seq<byte>>, L: Layout, ino: Inode, newSize: nat)
    requires IsDisk(d) && LayoutOk(L) && newSize < MAX_FILE_SIZE
    requires GrowIntendedSpec(d, L, ino, newSize).2 == 0
    ensures Fill(d, L, Intended, PointersAt(d, ino.head), ino.size / 4096 + 1, newSize / 4096).2 > newSize / 4096
    ensures GrowIntendedSpec(d, L, ino, newSize).1 == ino.(size := newSize)
  {
    GrowIntendedSettles(d, L, ino, newSize);
    SettleSucceeds(Fill(d, L, Intended, PointersAt(d, ino.head), ino.size / 4096 + 1, newSize / 4096), L, ino, newSize);
  }

  /** After a successful all-or-nothing growth the pointer block reads back
      as the filled entries. */
  lemma GrowIntendedWrites(d: seq<seq<byte>>, L: Layout, ino: Inode, newSize: nat)
    requires IsDisk(d) && LayoutOk(L) && newSize < MAX_FILE_SIZE && ino.head < NUM_BLOCKS
    requires GrowIntendedSpec(d, L, ino, newSize).2 == 0
    ensures PointersAt(GrowIntendedSpec(d, L, ino, newSize).0, ino.head) ==
            Fill(d, L, Intended, PointersAt(d, ino.head), ino.size / 4096 + 1, newSize / 4096).1
  {
    var e := PointersAt(d, ino.head);
    var f := Fill(d, L, Intended, e, ino.size / 4096 + 1, newSize / 4096);
    GrowIntendedSettles(d, L, ino, newSize);
    SettleSucceeds(f, L, ino, newSize);
    DecodePointersRoundTrip(d[ino.head]);
    FillPointerBlock(d, L, e, ino.size / 4096 + 1, newSize / 4096);
    StoredPointers(f.0, ino.head, f.1);
  }

  /** A corrected allocation loop over entries i .. last that did not stop
      early fills exactly those entries, with distinct blocks in
      [first_allocatable, last_allocatable] that were free before, and keeps
      the others. */
  lemma FillComplete(d: seq<seq<byte>>, L: Layout, e: seq<nat>, i: nat, last: nat)
    requires IsDisk(d) && LayoutOk(L) && |e| == POINTERS_PER_BLOCK && last < POINTERS_PER_BLOCK
    requires Fill(d, L, Intended, e, i, last).2 > last
    ensures var e' := Fill(d, L, Intended, e, i, last).1;
            && (forall t :: 0 <= t < POINTERS_PER_BLOCK && !(i <= t <= last) ==> e'[t] == e[t])
            && (forall t :: i <= t <= last ==>
                  L.firstAllocatable <= e'[t] <= L.lastAllocatable && InBitmap(L, Locate(e'[t])) && !Used(d, L, Locate(e'[t])))
            && (forall t, u :: i <= t < u <= last ==> e'[t] != e'[u])
  {
    FillAllocates(d, L, e, i, last);
    forall t | 0 <= t < POINTERS_PER_BLOCK && !(i <= t <= last)
      ensures Fill(d, L, Intended, e, i, last).1[t] == e[t]
    {
      FillKeeps(d, L, Intended, e, i, last, t);
    }
  }

  /** A successful all-or-nothing growth fills exactly the entries
      size / BLOCK_SIZE + 1 .. newSize / BLOCK_SIZE of the pointer block, with
      distinct blocks in [first_allocatable, last_allocatable] that were free
      before; the other entries are kept. */
  lemma GrowIntendedSucceeds(d: seq<seq<byte>>, L: Layout, ino: Inode, newSize: nat)
    requires IsDisk(d) && LayoutOk(L) && newSize < MAX_FILE_SIZE && ino.head < NUM_BLOCKS
    requires GrowIntendedSpec(d, L, ino, newSize).2 == 0
    ensures var e, e' := PointersAt(d, ino.head), PointersAt(GrowIntendedSpec(d, L, ino, newSize).0, ino.head);
            && (forall t :: 0 <= t < POINTERS_PER_BLOCK && !(ino.size / 4096 < t <= newSize / 4096) ==> e'[t] == e[t])
            && (forall t :: ino.size / 4096 < t <= newSize / 4096 ==>
                  L.firstAllocatable <= e'[t] <= L.lastAllocatable && InBitmap(L, Locate(e'[t])) && !Used(d, L, Locate(e'[t])))
            && (forall t, u :: ino.size / 4096 < t < u <= newSize / 4096 ==> e'[t] != e'[u])
  {
    GrowIntendedCompletes(d, L, ino, newSize);
    GrowIntendedWrites(d, L, ino, newSize);
    FillComplete(d, L, PointersAt(d, ino.head), ino.size / 4096 + 1, newSize / 4096);
  }

  /** The as-written rollback from entry j down to current + 1 only ever
      writes block 0 (every j is below BITS_PER_BLOCK), and what block 0 holds
      at the end is bitmap block 0 with the bit of block current + 1 cleared. */
  lemma {:induction false} RollbackEffect(d: seq<seq<byte>>, L: Layout, e: seq<nat>, j: nat, current: nat)
    requires IsDisk(d) && LayoutOk(L) && 0 < L.firstBlock < NUM_BLOCKS && |e| == POINTERS_PER_BLOCK
    requires current < j < POINTERS_PER_BLOCK
    ensures var d' := Rollback(d, L, e, j, current).0;
            && d'[0] == Cleared(d, L, Locate(current + 1))
            && forall m :: 0 < m < NUM_BLOCKS ==> d'[m] == d[m]
    decreases j
  {
    SmallBlockNumber(j);
    SmallBlockNumber(current + 1);
    if j > current + 1 {
      RollbackEffect(DeallocateSpec(d, L, AsWritten, j), L, e[j := NO_BLOCK], j - 1, current);
    }
  }

  /** The as-written rollback from entry j down to current + 1 resets exactly
      those entries to the sentinel and keeps every other entry. */
  lemma {:induction false} RollbackResets(d: seq<seq<byte>>, L: Layout, e: seq<nat>, j: nat, current: nat, t: nat)
    requires IsDisk(d) && LayoutOk(L) && L.firstBlock < NUM_BLOCKS && |e| == POINTERS_PER_BLOCK
    requires j < POINTERS_PER_BLOCK && t < POINTERS_PER_BLOCK
    ensures Rollback(d, L, e, j, current).1[t] == if current < t <= j then NO_BLOCK else e[t]
    decreases j
  {
    if j > current {
      SmallBlockNumber(j);
      RollbackResets(DeallocateSpec(d, L, AsWritten, j), L, e[j := NO_BLOCK], j - 1, current, t);
    }
  }

  /** What the end of ifile_grow as written does to the device after a stopped
      allocation loop: block 0 receives bitmap block 0 with the bit of block
      current + 1 cleared, the pointer block is written, and every other
      block is as the allocation loop left it. */
  lemma RollbackWrittenBack(f: (seq<seq<byte>>, seq<nat>, nat), L: Layout, ino: Inode, newSize: nat)
    requires IsDisk(f.0) && LayoutOk(L) && 0 < L.firstBlock < NUM_BLOCKS && |f.1| == POINTERS_PER_BLOCK
    requires newSize < MAX_FILE_SIZE && ino.size / 4096 < f.2 <= newSize / 4096
    ensures var g := WriteBack(RollbackIfFailed(f, L, ino.size / 4096, newSize / 4096), ino, newSize).0;
            && (ino.head != 0 ==> g[0] == Cleared(f.0, L, Pos(0, (ino.size / 4096 + 1) / 8, (ino.size / 4096 + 1) % 8)))
            && forall m :: 0 < m < NUM_BLOCKS && m != ino.head ==> g[m] == f.0[m]
  {
    RollbackEffect(f.0, L, f.1, f.2, ino.size / 4096);
    SmallBlockNumber(ino.size / 4096 + 1);
  }

  /** ifile_grow as written is its allocation loop, the rollback when the
      loop stopped early, and the write-back. */
  lemma AsWrittenGrowSteps(d: seq<seq<byte>>, L: Layout, ino: Inode, newSize: nat)
    requires IsDisk(d) && LayoutOk(L) && L.firstBlock < NUM_BLOCKS && newSize < MAX_FILE_SIZE
    ensures GrowSpec(d, L, ino, newSize) ==
            WriteBack(RollbackIfFailed(Fill(d, L, AsWritten, PointersAt(d, ino.head), ino.size / 4096 + 1, newSize / 4096),
                                       L, ino.size / 4096, newSize / 4096), ino, newSize)
  {
  }

  /** ifile_grow as written sets the size to newSize whatever happened. */
  lemma AsWrittenGrowSetsSize(d: seq<seq<byte>>, L: Layout, ino: Inode, newSize: nat)
    requires IsDisk(d) && LayoutOk(L) && L.firstBlock < NUM_BLOCKS && newSize < MAX_FILE_SIZE
    ensures GrowSpec(d, L, ino, newSize).1 == ino.(size := newSize)
  {
  }

  /** After a failed ifile_grow as written, block 0 (the first inode block)
      holds bitmap block 0 with the bit of block size / BLOCK_SIZE + 1
      cleared. */
  lemma AsWrittenGrowBlockZero(d: seq<seq<byte>>, L: Layout, ino: Inode, newSize: nat)
    requires IsDisk(d) && LayoutOk(L) && 0 < L.firstBlock < NUM_BLOCKS && newSize < MAX_FILE_SIZE && ino.head != 0
    requires Fill(d, L, AsWritten, PointersAt(d, ino.head), ino.size / 4096 + 1, newSize / 4096).2 <= newSize / 4096
    ensures var f := Fill(d, L, AsWritten, PointersAt(d, ino.head), ino.size / 4096 + 1, newSize / 4096);
            GrowSpec(d, L, ino, newSize).0[0] == Cleared(f.0, L, Pos(0, (ino.size / 4096 + 1) / 8, (ino.size / 4096 + 1) % 8))
  {
    AsWrittenGrowSteps(d, L, ino, newSize);
    RollbackWrittenBack(Fill(d, L, AsWritten, PointersAt(d, ino.head), ino.size / 4096 + 1, newSize / 4096), L, ino, newSize);
  }

  /** After a failed ifile_grow as written, every bitmap bit outside the
      pointer block is as the allocation loop left it. */
  lemma AsWrittenGrowKeepsBit(d: seq<seq<byte>>, L: Layout, ino: Inode, newSize: nat, q: Pos)
    requires IsDisk(d) && LayoutOk(L) && 0 < L.firstBlock < NUM_BLOCKS && newSize < MAX_FILE_SIZE
    requires Fill(d, L, AsWritten, PointersAt(d, ino.head), ino.size / 4096 + 1, newSize / 4096).2 <= newSize / 4096
    requires InBitmap(L, q) && L.firstBlock + q.i != ino.head
    ensures var f := Fill(d, L, AsWritten, PointersAt(d, ino.head), ino.size / 4096 + 1, newSize / 4096);
            Used(GrowSpec(d, L, ino, newSize).0, L, q) == Used(f.0, L, q)
  {
    AsWrittenGrowSteps(d, L, ino, newSize);
    RollbackWrittenBack(Fill(d, L, AsWritten, PointersAt(d, ino.head), ino.size / 4096 + 1, newSize / 4096), L, ino, newSize);
  }

  /** ifile_grow as written, when an allocation fails: the size is still set
      to newSize; block 0, the first inode block, is overwritten with a copy
      of bitmap block 0 (the rollback passes entry indices to deallocation,
      which writes to block index / BITS_PER_BLOCK = 0); and every bit the
      allocation loop set is still set, so its blocks stay allocated. */
  lemma AsWrittenGrowFailure(d: seq<seq<byte>>, L: Layout, ino: Inode, newSize: nat)
    requires IsDisk(d) && LayoutOk(L) && 0 < L.firstBlock < NUM_BLOCKS && newSize < MAX_FILE_SIZE && ino.head != 0
    requires Fill(d, L, AsWritten, PointersAt(d, ino.head), ino.size / 4096 + 1, newSize / 4096).2 <= newSize / 4096
    ensures GrowSpec(d, L, ino, newSize).1.size == newSize
    ensures var f := Fill(d, L, AsWritten, PointersAt(d, ino.head), ino.size / 4096 + 1, newSize / 4096);
            GrowSpec(d, L, ino, newSize).0[0] == Cleared(f.0, L, Pos(0, (ino.size / 4096 + 1) / 8, (ino.size / 4096 + 1) % 8))
    ensures var f := Fill(d, L, AsWritten, PointersAt(d, ino.head), ino.size / 4096 + 1, newSize / 4096);
            forall q :: InBitmap(L, q) && L.firstBlock + q.i != ino.head ==>
              (Used(GrowSpec(d, L, ino, newSize).0, L, q) <==> Used(f.0, L, q))
  {
    AsWrittenGrowSetsSize(d, L, ino, newSize);
    AsWrittenGrowBlockZero(d, L, ino, newSize);
    forall q | InBitmap(L, q) && L.firstBlock + q.i != ino.head
      ensures Used(GrowSpec(d, L, ino, newSize).0, L, q) ==
              Used(Fill(d, L, AsWritten, PointersAt(d, ino.head), ino.size / 4096 + 1, newSize / 4096).0, L, q)
    {
      AsWrittenGrowKeepsBit(d, L, ino, newSize, q);
    }
  }

  /** The pointer block after a failed ifile_grow as written: entries
      size / BLOCK_SIZE + 1 up to the entry whose allocation failed hold the
      sentinel, every other entry is as before the call, and yet the size is
      set to newSize, so the file claims blocks it has no entries for. */
  lemma AsWrittenGrowResets(d: seq<seq<byte>>, L: Layout, ino: Inode, newSize: nat, t: nat)
    requires IsDisk(d) && LayoutOk(L) && 0 < L.firstBlock < NUM_BLOCKS && newSize < MAX_FILE_SIZE
    requires ino.head < NUM_BLOCKS && t < POINTERS_PER_BLOCK
    requires Fill(d, L, AsWritten, PointersAt(d, ino.head), ino.size / 4096 + 1, newSize / 4096).2 <= newSize / 4096
    ensures GrowSpec(d, L, ino, newSize).1.size == newSize
    ensures var stop := Fill(d, L, AsWritten, PointersAt(d, ino.head), ino.size / 4096 + 1, newSize / 4096).2;
            PointersAt(GrowSpec(d, L, ino, newSize).0, ino.head)[t] ==
              if ino.size / 4096 < t <= stop then NO_BLOCK else PointersAt(d, ino.head)[t]
  {
    var e := PointersAt(d, ino.head);
    var f := Fill(d, L, AsWritten, e, ino.size / 4096 + 1, newSize / 4096);
    AsWrittenGrowSteps(d, L, ino, newSize);
    RollbackResets(f.0, L, f.1, f.2, ino.size / 4096, t);
    if t <= ino.size / 4096 {
      FillKeeps(d, L, AsWritten, e, ino.size / 4096 + 1, newSize / 4096, t);
    } else if f.2 < t {
      FillKeepsPast(d, L, AsWritten, e, ino.size / 4096 + 1, newSize / 4096, t);
    }
    DecodePointersRoundTrip(d[ino.head]);
    StoredEntry(f.0, ino.head, Rollback(f.0, L, f.1, f.2, ino.size / 4096).1, t);
  }

  /** The inode numbered id: record id % INODES_PER_BLOCK of inode block
      id / INODES_PER_BLOCK. */
  ghost function InodeOf(d: seq<seq<byte>>, id: nat): Inode
    requires IsDisk(d) && id < MAX_FILES
  {
    InodeAt(d[id / 128], id % 128)
  }

  /** Once the inode blocks are zeroed, every inode is unused, empty and
      names block 0. */
  lemma ZeroedInodes(d: seq<seq<byte>>, hi: nat, id: nat)
    requires IsDisk(d) && 8 <= hi && id < MAX_FILES
    ensures InodeOf(Zeroed(d, 0, hi), id) == Inode(false, 0, 0)
  {
    ZeroInode(id % 128);
  }

  /** After format as written, the first allocation returns block 2056: the
      2048 bitmap blocks occupy blocks 8 .. 2055 and none of them is handed
      out. */
  lemma FormatFirstAllocation(d: seq<seq<byte>>)
    requires IsDisk(d)
    ensures AllocateSpec(Zeroed(d, 0, 2056), Layout(8, 2048, 2056, NUM_BLOCKS - 1), AsWritten).1 == 2056
  {
    var z, L, p := Zeroed(d, 0, 2056), Layout(8, 2048, 2056, NUM_BLOCKS - 1), Pos(0, 257, 0);
    forall q | InBitmap(L, q) && Before(q, p) ensures !Candidate(z, L, AsWritten, q) {
    }
    FirstFreeUnique(z, L, AsWritten, p);
  }

  /** After the corrected format, the first allocation returns block 9, the
      block right after the single bitmap block. */
  lemma FormatIntendedFirstAllocation(d: seq<seq<byte>>)
    requires IsDisk(d)
    ensures AllocateSpec(Zeroed(d, 0, 9), Layout(8, 1, 9, NUM_BLOCKS - 1), Intended).1 == 9
  {
    var z, L, p := Zeroed(d, 0, 9), Layout(8, 1, 9, NUM_BLOCKS - 1), Pos(0, 1, 1);
    forall q | InBitmap(L, q) && Before(q, p) ensures !Candidate(z, L, Intended, q) {
    }
    FirstFreeUnique(z, L, Intended, p);
  }

  /** The device after inode id is stored in its record. */
  ghost function StoreInode(d: seq<seq<byte>>, id: nat, ino: Inode): (d': seq<seq<byte>>)
    requires IsDisk(d) && id < MAX_FILES
    ensures IsDisk(d')
  {
    Store(d, id / 128, PutInode(d[id / 128], id % 128, ino))
  }

  /** Storing inode id and reading inode other gives ino back when other is
      id, and the old inode otherwise. */
  lemma StoreInodeEffect(d: seq<seq<byte>>, id: nat, ino: Inode, other: nat)
    requires IsDisk(d) && id < MAX_FILES && other < MAX_FILES && Storable(ino)
    ensures InodeOf(StoreInode(d, id, ino), other) == if other == id then ino else InodeOf(d, other)
  {
    if other == id {
      InodeRoundTrip(d[id / 128], id % 128, ino);
    } else if other / 128 == id / 128 {
      PutInodeOthers(d[id / 128], id % 128, ino, other % 128);
    }
  }

  /** The pointer block of a new file: entry 0 names its first data block,
      every other entry is zero. */
  function FirstEntries(b: nat): (e: seq<nat>)
    ensures |e| == POINTERS_PER_BLOCK && e[0] == b
    ensures forall t :: 0 < t < POINTERS_PER_BLOCK ==> e[t] == 0
  {
    seq(POINTERS_PER_BLOCK, t => if t == 0 then b else 0)
  }

  /** ifile_create (specified by its comments): inode id becomes a used,
      empty file whose pointer block is a newly allocated block and whose
      first entry names a second newly allocated block.  Both blocks come
      from the corrected allocator, and both are allocated before anything
      is written, so that a failed allocation gives back the first block and
      leaves the device as it was.  The result is the device and 0, or -1. */
  ghost function CreateSpec(d: seq<seq<byte>>, L: Layout, id: nat): (r: (seq<seq<byte>>, int))
    requires IsDisk(d) && LayoutOk(L)
    ensures IsDisk(r.0)
  {
    if id >= MAX_FILES then (d, -1)
    else CreateWithHead(AllocateSpec(d, L, Intended), L, id)
  }

  /** ifile_create once the pointer block is allocated (or not). */
  ghost function CreateWithHead(h: (seq<seq<byte>>, int), L: Layout, id: nat): (r: (seq<seq<byte>>, int))
    requires IsDisk(h.0) && LayoutOk(L) && id < MAX_FILES && h.1 >= -1
    ensures IsDisk(r.0)
  {
    if h.1 == -1 then (h.0, -1)
    else CreateWithData(AllocateSpec(h.0, L, Intended), L, id, h.1 as nat)
  }

  /** ifile_create once the data block is allocated (or not): on failure the
      pointer block is given back; on success the inode and the pointer block
      are written. */
  ghost function CreateWithData(b: (seq<seq<byte>>, int), L: Layout, id: nat, head: nat): (r: (seq<seq<byte>>, int))
    requires IsDisk(b.0) && LayoutOk(L) && id < MAX_FILES && b.1 >= -1
    ensures IsDisk(r.0)
  {
    if b.1 == -1 then (ReleaseOne(b.0, L, head), -1)
    else (Store(StoreInode(b.0, id, Inode(true, 0, head)), head, EncodePointers(FirstEntries(b.1 as nat))), 0)
  }

  /** The layout format establishes: the bitmap follows the eight inode
      blocks and the allocatable blocks follow the bitmap. */
  ghost predicate Formatted(L: Layout) {
    LayoutOk(L) && 8 <= L.firstBlock && L.firstBlock + L.numberBlocks <= L.firstAllocatable
  }

  /** ifile_create fails only as a whole: when it returns -1 the device is
      exactly as before. */
  lemma CreateFails(d: seq<seq<byte>>, L: Layout, id: nat)
    requires IsDisk(d) && LayoutOk(L)
    ensures CreateSpec(d, L, id).1 != 0 ==> CreateSpec(d, L, id) == (d, -1)
  {
    if id < MAX_FILES {
      var a := AllocateSpec(d, L, Intended);
      AllocateFails(d, L, Intended);
      if a.1 != -1 {
        AllocateFails(a.0, L, Intended);
        DeallocateUndoesAllocate(d, L);
      }
    }
  }

  /** A successful ifile_create allocates two different blocks, the pointer
      block first, both in [first_allocatable, last_allocatable] and both free
      before the call. */
  lemma CreateAllocates(d: seq<seq<byte>>, L: Layout, id: nat)
    requires IsDisk(d) && LayoutOk(L) && CreateSpec(d, L, id).1 == 0
    ensures var a := AllocateSpec(d, L, Intended);
            var h, b := a.1, AllocateSpec(a.0, L, Intended).1;
            && L.firstAllocatable <= h <= L.lastAllocatable && L.firstAllocatable <= b <= L.lastAllocatable && h != b
            && InBitmap(L, Locate(h)) && InBitmap(L, Locate(b)) && !Used(d, L, Locate(h)) && !Used(d, L, Locate(b))
  {
    var a := AllocateSpec(d, L, Intended);
    var p := FirstFree(d, L, Intended, 0, 0, 0).value;
    var p' := FirstFree(a.0, L, Intended, 0, 0, 0).value;
    AllocateSetsOneBit(d, L, Intended);
    AllocateSetsOneBit(a.0, L, Intended);
    LocateBitNumber(p);
    LocateBitNumber(p');
  }

  /** Writing inode id and then a pointer block at a block past the inode
      blocks: inode id reads back as written, every other inode as before. */
  lemma WrittenInode(d: seq<seq<byte>>, id: nat, ino: Inode, e: seq<nat>, other: nat)
    requires IsDisk(d) && id < MAX_FILES && other < MAX_FILES && Storable(ino) && 8 <= ino.head && |e| == POINTERS_PER_BLOCK
    ensures InodeOf(Store(StoreInode(d, id, ino), ino.head, EncodePointers(e)), other) ==
            if other == id then ino else InodeOf(d, other)
  {
    StoreInodeEffect(d, id, ino, other);
  }

  /** An allocation writes only a bitmap block, so the blocks before the
      bitmap are unchanged. */
  lemma AllocateKeepsInodes(d: seq<seq<byte>>, L: Layout, s: Scheme, other: nat)
    requires IsDisk(d) && Formatted(L) && other < MAX_FILES
    ensures InodeOf(AllocateSpec(d, L, s).0, other) == InodeOf(d, other)
  {
    if AllocateSpec(d, L, s).1 != -1 {
      AllocateSetsOneBit(d, L, s);
    }
  }

  /** After a successful ifile_create, inode id is used, has size 0 and
      names the first block allocated as its pointer block; every other inode
      is unchanged. */
  lemma CreateInode(d: seq<seq<byte>>, L: Layout, id: nat, other: nat)
    requires IsDisk(d) && Formatted(L) && CreateSpec(d, L, id).1 == 0 && other < MAX_FILES
    ensures id < MAX_FILES
    ensures var ino := InodeOf(CreateSpec(d, L, id).0, other);
            if other == id then ino.used && ino.size == 0 && ino.head == AllocateSpec(d, L, Intended).1
            else ino == InodeOf(d, other)
  {
    var a := AllocateSpec(d, L, Intended);
    var b := AllocateSpec(a.0, L, Intended);
    IntendedWithinDevice(d, L);
    WrittenInode(b.0, id, Inode(true, 0, a.1 as nat), FirstEntries(b.1 as nat), other);
    AllocateKeepsInodes(d, L, Intended, other);
    AllocateKeepsInodes(a.0, L, Intended, other);
  }

  /** After a successful ifile_create the new pointer block reads back as
      entry 0 naming the second block allocated and all other entries zero. */
  lemma CreatePointers(d: seq<seq<byte>>, L: Layout, id: nat)
    requires IsDisk(d) && LayoutOk(L) && CreateSpec(d, L, id).1 == 0
    ensures var a := AllocateSpec(d, L, Intended);
            PointersAt(CreateSpec(d, L, id).0, a.1 as nat) == FirstEntries(AllocateSpec(a.0, L, Intended).1 as nat)
  {
    var a := AllocateSpec(d, L, Intended);
    var b := AllocateSpec(a.0, L, Intended);
    IntendedWithinDevice(d, L);
    IntendedWithinDevice(a.0, L);
    StoredPointers(StoreInode(b.0, id, Inode(true, 0, a.1 as nat)), a.1 as nat, FirstEntries(b.1 as nat));
  }

  /** Writing an inode and a pointer block at an allocatable block leaves
      every bitmap bit as it was. */
  lemma WrittenKeepsBitmap(d: seq<seq<byte>>, L: Layout, id: nat, ino: Inode, e: seq<nat>, q: Pos)
    requires IsDisk(d) && Formatted(L) && id < MAX_FILES && L.firstAllocatable <= ino.head && |e| == POINTERS_PER_BLOCK
    requires InBitmap(L, q)
    ensures Used(Store(StoreInode(d, id, ino), ino.head, EncodePointers(e)), L, q) == Used(d, L, q)
  {
  }

  /** A successful ifile_create sets the bits of the two blocks it allocated
      and leaves every other bit as it was. */
  lemma CreateBitmap(d: seq<seq<byte>>, L: Layout, id: nat, q: Pos)
    requires IsDisk(d) && Formatted(L) && CreateSpec(d, L, id).1 == 0 && InBitmap(L, q)
    ensures var a := AllocateSpec(d, L, Intended);
            var h, b := a.1, AllocateSpec(a.0, L, Intended).1;
            && 0 <= h && 0 <= b
            && (Used(CreateSpec(d, L, id).0, L, q) <==> q == Locate(h) || q == Locate(b) || Used(d, L, q))
  {
    var a := AllocateSpec(d, L, Intended);
    var b := AllocateSpec(a.0, L, Intended);
    var p := FirstFree(d, L, Intended, 0, 0, 0).value;
    var p' := FirstFree(a.0, L, Intended, 0, 0, 0).value;
    AllocateSetsOneBit(d, L, Intended);
    AllocateSetsOneBit(a.0, L, Intended);
    LocateBitNumber(p);
    LocateBitNumber(p');
    WrittenKeepsBitmap(b.0, L, id, Inode(true, 0, a.1 as nat), FirstEntries(b.1 as nat), q);
  }

  /** ifile_read (specified by its comments): the n bytes of file id starting
      at from, or None (the -1 result) when id is past the inode table, the
      inode is unused, the range ends past the file size, or the range would
      reach past the pointer block's last entry. */
  ghost function ReadSpec(d: seq<seq<byte>>, id: nat, from: nat, n: nat): (r: Option<seq<byte>>)
    requires IsDisk(d)
    ensures r.Some? ==> id < MAX_FILES && from + n < MAX_FILE_SIZE && |r.value| == n
  {
    if id >= MAX_FILES then None
    else
      var ino := InodeOf(d, id);
      if !ino.used || from + n > ino.size || from + n >= MAX_FILE_SIZE then None
      else Some(ReadSpan(d, PointersAt(d, ino.head), from, n))
  }

  /** The checks and the growth at the start of ifile_write (specified by its
      comments) for a write ending at byte `end` (to + how_many): the device
      afterwards, the inode, and 0 or -1.  A write ending past the file size
      grows the file with the all-or-nothing growth and writes the inode
      block read before the growth back with the grown inode in it. */
  ghost function WritePrepare(d: seq<seq<byte>>, L: Layout, id: nat, end: nat): (r: (seq<seq<byte>>, Inode, int))
    requires IsDisk(d) && LayoutOk(L)
    ensures IsDisk(r.0)
    ensures r.2 == 0 ==> id < MAX_FILES && end < MAX_FILE_SIZE
  {
    if id >= MAX_FILES then (d, Inode(false, 0, 0), -1)
    else WriteChecks(d, L, id, InodeOf(d, id), end)
  }

  /** The checks and the growth of ifile_write once inode id has been read
      as ino, for a write ending at byte `end`. */
  ghost function WriteChecks(d: seq<seq<byte>>, L: Layout, id: nat, ino: Inode, end: nat): (r: (seq<seq<byte>>, Inode, int))
    requires IsDisk(d) && LayoutOk(L) && id < MAX_FILES
    ensures IsDisk(r.0)
    ensures r.2 == 0 ==> end < MAX_FILE_SIZE
  {
    if !ino.used || end >= MAX_FILE_SIZE then (d, ino, -1)
    else if end <= ino.size then (d, ino, 0)
    else GrowPersist(d, L, id, ino, end)
  }

  /** The growth branch of ifile_write: the all-or-nothing growth, then the
      inode block (as read before the growth) written back with the grown
      inode in place. */
  ghost function GrowPersist(d: seq<seq<byte>>, L: Layout, id: nat, ino: Inode, newSize: nat): (r: (seq<seq<byte>>, Inode, int))
    requires IsDisk(d) && LayoutOk(L) && id < MAX_FILES && newSize < MAX_FILE_SIZE
    ensures IsDisk(r.0)
  {
    Persist(GrowIntendedSpec(d, L, ino, newSize), d[id / 128], id)
  }

  /** After a successful growth, the inode block (as read before it) is
      written back with the grown inode in place. */
  ghost function Persist(g: (seq<seq<byte>>, Inode, int), blk: seq<byte>, id: nat): (r: (seq<seq<byte>>, Inode, int))
    requires IsDisk(g.0) && |blk| == BLOCK_SIZE && id < MAX_FILES
    ensures IsDisk(r.0)
  {
    if g.2 != 0 then g else (Store(g.0, id / 128, PutInode(blk, id % 128, g.1)), g.1, 0)
  }

  /** ifile_write (specified by its comments): after the checks and the
      growth, buf is written at offset `to` of the file through its pointer
      block; on any failure the device is unchanged and the result is -1. */
  ghost function WriteSpec(d: seq<seq<byte>>, L: Layout, id: nat, buf: seq<byte>, to: nat): (r: (seq<seq<byte>>, int))
    requires IsDisk(d) && LayoutOk(L)
    ensures IsDisk(r.0)
  {
    WriteData(WritePrepare(d, L, id, WriteEnd(to, buf)), d, buf, to)
  }

  /** The byte just past a write of buf at offset `to`. */
  function WriteEnd(to: nat, buf: seq<byte>): nat {
    to + |buf|
  }

  /** The data part of ifile_write, given what the checks and the growth left. */
  ghost function WriteData(p: (seq<seq<byte>>, Inode, int), d: seq<seq<byte>>, buf: seq<byte>, to: nat): (r: (seq<seq<byte>>, int))
    requires IsDisk(p.0) && IsDisk(d) && (p.2 == 0 ==> to + |buf| < MAX_FILE_SIZE)
    ensures IsDisk(r.0)
  {
    if p.2 != 0 then (d, -1)
    else (WriteSpan(p.0, PointersAt(p.0, p.1.head), buf, to, (to + |buf|) / 4096 + 1), 0)
  }

  /** After the checks and the growth of ifile_write succeed, inode id is
      stored on the device, is used, keeps its pointer block and has grown to
      `end` bytes if it was shorter. */
  lemma WritePrepared(d: seq<seq<byte>>, L: Layout, id: nat, end: nat)
    requires IsDisk(d) && LayoutOk(L) && WritePrepare(d, L, id, end).2 == 0
    ensures var p, ino := WritePrepare(d, L, id, end), InodeOf(d, id);
            && InodeOf(p.0, id) == p.1 && ino.used
            && p.1 == ino.(size := if end <= ino.size then ino.size else end)
  {
    var ino := InodeOf(d, id);
    if end > ino.size {
      GrowIntendedCompletes(d, L, ino, end);
      InodeAtStorable(d[id / 128], id % 128, end);
      InodeRoundTrip(d[id / 128], id % 128, ino.(size := end));
    }
  }

  /** As written, ifile_grow's allocation loop (files.c:95) has no bound
      against the 512 entries of the pointer block: growing a file to
      512 * BLOCK_SIZE bytes or more runs the loop over entry 512, one past
      the last entry. */
  lemma AsWrittenEntriesPastBlock(size: nat, newSize: nat)
    requires size < MAX_FILE_SIZE <= newSize
    ensures size / 4096 + 1 <= POINTERS_PER_BLOCK <= newSize / 4096
  {
  }

  /** The corrected bound: ifile_read and ifile_write refuse every range that
      ends at or past 512 * BLOCK_SIZE, leaving the device unchanged, so no
      growth ever reaches past the pointer block. */
  lemma LongRangeRefused(d: seq<seq<byte>>, L: Layout, id: nat, buf: seq<byte>, to: nat, from: nat, n: nat)
    requires IsDisk(d) && LayoutOk(L)
    ensures to + |buf| >= MAX_FILE_SIZE ==> WriteSpec(d, L, id, buf, to) == (d, -1)
    ensures from + n >= MAX_FILE_SIZE ==> ReadSpec(d, id, from, n) == None
  {
  }

  /** The blocks that a write of n bytes at `to` touches are distinct device
      blocks, none of them m1 or m2. */
  ghost predicate Separate(e: seq<nat>, to: nat, n: nat, m1: nat, m2: nat)
    requires InFile(e, to, n)
  {
    && Distinct(e, to / 4096, (to + n) / 4096 + 1) && OnDevice(e, to / 4096, (to + n) / 4096 + 1)
    && forall i :: to / 4096 <= i <= (to + n) / 4096 ==> e[i] != m1 && e[i] != m2
  }

  /** Reading back what ifile_write wrote gives the written bytes, provided
      the blocks it wrote are distinct device blocks other than the inode's
      block and its pointer block. */
  lemma ReadAfterFileWrite(d: seq<seq<byte>>, L: Layout, id: nat, buf: seq<byte>, to: nat)
    requires IsDisk(d) && LayoutOk(L) && WritePrepare(d, L, id, WriteEnd(to, buf)).2 == 0
    requires var p := WritePrepare(d, L, id, WriteEnd(to, buf));
             Separate(PointersAt(p.0, p.1.head), to, |buf|, id / 128, p.1.head)
    ensures WriteSpec(d, L, id, buf, to).1 == 0
    ensures ReadSpec(WriteSpec(d, L, id, buf, to).0, id, to, |buf|) == Some(buf)
  {
    WritePrepared(d, L, id, WriteEnd(to, buf));
    WrittenDataReads(WritePrepare(d, L, id, WriteEnd(to, buf)), d, id, buf, to);
  }

  /** The data part of ifile_write reads back, given checks and growth that
      left inode id stored, used and at least to + |buf| bytes long, and
      blocks to write that are separate from the inode and pointer blocks. */
  lemma WrittenDataReads(p: (seq<seq<byte>>, Inode, int), d: seq<seq<byte>>, id: nat, buf: seq<byte>, to: nat)
    requires IsDisk(p.0) && IsDisk(d) && id < MAX_FILES && p.2 == 0 && to + |buf| < MAX_FILE_SIZE
    requires InodeOf(p.0, id) == p.1 && p.1.used && to + |buf| <= p.1.size
    requires Separate(PointersAt(p.0, p.1.head), to, |buf|, id / 128, p.1.head)
    ensures WriteData(p, d, buf, to).1 == 0
    ensures ReadSpec(WriteData(p, d, buf, to).0, id, to, |buf|) == Some(buf)
  {
    var e := PointersAt(p.0, p.1.head);
    var k := (to + |buf|) / 4096 + 1;
    WriteSpanOutside(p.0, e, buf, to, k, id / 128);
    if p.1.head < NUM_BLOCKS {
      WriteSpanOutside(p.0, e, buf, to, k, p.1.head);
    }
    ReadAfterWrite(p.0, e, buf, to);
  }

  class FileSystem {
    const dev: Device
    const alloc: Allocator
    /// number_inode_blocks (all ones until format runs).
    var numberInodeBlocks: nat
    /// number_bitmap_blocks (all ones until format runs).
    var numberBitmapBlocks: nat

    ghost predicate Valid()
      reads this, alloc, dev, dev.blocks
    {
      alloc.dev == dev && alloc.Valid() && alloc.firstBlock < NUM_BLOCKS
    }

    constructor (device: Device)
      requires device.Valid()
      ensures Valid() && dev == device && fresh(alloc)
      ensures alloc.Globals() == Layout(0, 0, 0, 0)
      ensures numberInodeBlocks == NO_BLOCK && numberBitmapBlocks == NO_BLOCK
    {
      dev := device;
      alloc := new Allocator(device);
      numberInodeBlocks, numberBitmapBlocks := NO_BLOCK, NO_BLOCK;
    }

    /** One of format's loops: write a zeroed block to every block of [lo, hi). */
    method ZeroRegion(lo: nat, hi: nat)
      requires Valid() && lo <= hi
      modifies dev.blocks
      ensures Valid()
      ensures dev.Disk() == Zeroed(old(dev.Disk()), lo, hi)
    {
      ghost var d := dev.Disk();
      var zeroed := ZeroBlock();
      ZeroedNone(d, lo);
      var i := lo;
      while i < hi
        invariant lo <= i <= hi
        invariant Valid() && dev.Disk() == Zeroed(d, lo, i)
      {
        var rc := dev.WriteBlock(i, zeroed);
        ZeroedStep(d, lo, i);
        i := i + 1;
      }
    }

    /** format, as written: 8 inode blocks (1024 inodes of 32 bytes, 128 per
        block) and DIV_UP(NUM_BLOCKS, 8) = 2048 bitmap blocks are zeroed, and
        the allocator is told the bitmap starts at block 8 and blocks from 2056
        up to the last block of the device are allocatable. */
    method Format()
      requires Valid()
      modifies this, alloc, dev.blocks
      ensures Valid()
      ensures numberInodeBlocks == 8 && numberBitmapBlocks == 2048
      ensures alloc.Globals() == Layout(8, 2048, 2056, NUM_BLOCKS - 1)
      ensures dev.Disk() == Zeroed(old(dev.Disk()), 0, 2056)
    {
      numberInodeBlocks := DivUp(MAX_FILES, 4096 / INODE_SIZE);
      ZeroRegion(0, numberInodeBlocks);
      numberBitmapBlocks := DivUp(NUM_BLOCKS, 8);
      ZeroRegion(numberInodeBlocks, numberInodeBlocks + numberBitmapBlocks);
      alloc.Init(numberInodeBlocks, numberBitmapBlocks, NUM_BLOCKS);
      ZeroedTwice(old(dev.Disk()), 0, 8, 2056);
    }

    /** format with the bitmap sized in blocks: NUM_BLOCKS bits take
        DIV_UP(DIV_UP(NUM_BLOCKS, 8), BLOCK_SIZE) = 1 block, so blocks from 9
        on are allocatable. */
    method FormatIntended()
      requires Valid()
      modifies this, alloc, dev.blocks
      ensures Valid()
      ensures numberInodeBlocks == 8 && numberBitmapBlocks == 1
      ensures alloc.Globals() == Layout(8, 1, 9, NUM_BLOCKS - 1)
      ensures dev.Disk() == Zeroed(old(dev.Disk()), 0, 9)
    {
      numberInodeBlocks := DivUp(MAX_FILES, 4096 / INODE_SIZE);
      ZeroRegion(0, numberInodeBlocks);
      numberBitmapBlocks := DivUp(DivUp(NUM_BLOCKS, 8), 4096);
      ZeroRegion(numberInodeBlocks, numberInodeBlocks + numberBitmapBlocks);
      alloc.Init(numberInodeBlocks, numberBitmapBlocks, NUM_BLOCKS);
      ZeroedTwice(old(dev.Disk()), 0, 8, 9);
    }

    /** The allocation loop of ifile_grow (the rollback is separate). */
    method FillEntries(s: Scheme, e: seq<nat>, first: nat, last: nat) returns (e': seq<nat>, stop: nat)
      requires Valid() && |e| == POINTERS_PER_BLOCK && last < POINTERS_PER_BLOCK
      modifies dev.blocks
      ensures Valid()
      ensures (dev.Disk(), e', stop) == Fill(old(dev.Disk()), alloc.Globals(), s, e, first, last)
    {
      ghost var d := dev.Disk();
      ghost var L := alloc.Globals();
      e', stop := e, first;
      while stop <= last
        invariant Valid() && |e'| == POINTERS_PER_BLOCK && alloc.Globals() == L
        invariant Fill(d, L, s, e, first, last) == Fill(dev.Disk(), L, s, e', stop, last)
        decreases last + 1 - stop
      {
        var b := alloc.AllocateWith(s);
        if b == -1 {
          e' := e'[stop := NO_BLOCK];
          return;
        }
        e' := e'[stop := b];
        stop := stop + 1;
      }
    }

    /** The rollback of ifile_grow when the allocation loop stopped early. */
    method RollbackIfStopped(e: seq<nat>, stop: nat, current: nat, last: nat) returns (e': seq<nat>)
      requires Valid() && |e| == POINTERS_PER_BLOCK && last < POINTERS_PER_BLOCK
      modifies dev.blocks
      ensures Valid()
      ensures (dev.Disk(), e') == RollbackIfFailed((old(dev.Disk()), e, stop), alloc.Globals(), current, last)
    {
      e' := e;
      if stop <= last {
        e' := RollbackEntries(e, stop, current);
      }
    }

    /** The rollback loop of ifile_grow, as written. */
    method RollbackEntries(e: seq<nat>, from: nat, current: nat) returns (e': seq<nat>)
      requires Valid() && |e| == POINTERS_PER_BLOCK && from < POINTERS_PER_BLOCK
      modifies dev.blocks
      ensures Valid()
      ensures (dev.Disk(), e') == Rollback(old(dev.Disk()), alloc.Globals(), e, from, current)
    {
      ghost var d := dev.Disk();
      ghost var L := alloc.Globals();
      e' := e;
      var j: nat := from;
      while j >= current + 1
        invariant j <= from && Valid() && |e'| == POINTERS_PER_BLOCK && alloc.Globals() == L
        invariant Rollback(d, L, e, from, current) == Rollback(dev.Disk(), L, e', j, current)
      {
        SmallBlockNumber(j);
        alloc.Deallocate(j);
        e' := e'[j := NO_BLOCK];
        j := j - 1;
      }
    }

    /** The first half of ifile_grow: read the pointer block into a zeroed
        buffer and fill entries size / BLOCK_SIZE + 1 .. newSize / BLOCK_SIZE. */
    method FillFromHead(s: Scheme, ino: Inode, newSize: nat) returns (entries: seq<nat>, stop: nat)
      requires Valid() && newSize < MAX_FILE_SIZE
      modifies dev.blocks
      ensures Valid()
      ensures (dev.Disk(), entries, stop) ==
              Fill(old(dev.Disk()), alloc.Globals(), s, PointersAt(old(dev.Disk()), ino.head), ino.size / 4096 + 1, newSize / 4096)
    {
      var block := ZeroBlock();
      var rc;
      rc, block := dev.ReadBlock(ino.head, block);
      entries, stop := FillEntries(s, DecodePointers(block), ino.size / 4096 + 1, newSize / 4096);
    }

    /** The two loops of ifile_grow, as written. */
    method GrowEntries(ino: Inode, newSize: nat) returns (entries: seq<nat>)
      requires Valid() && newSize < MAX_FILE_SIZE
      modifies dev.blocks
      ensures Valid()
      ensures (dev.Disk(), entries) == GrowEntriesSpec(old(dev.Disk()), alloc.Globals(), ino, newSize)
    {
      var stop;
      entries, stop := FillFromHead(AsWritten, ino, newSize);
      entries := RollbackIfStopped(entries, stop, ino.size / 4096, newSize / 4096);
    }

    /** ifile_grow, as written.  The inode is the caller's copy; the updated
        copy is returned. */
    method Grow(ino: Inode, newSize: nat) returns (rc: int, ino': Inode)
      requires Valid() && newSize < MAX_FILE_SIZE
      modifies dev.blocks
      ensures Valid() && rc == 0
      ensures (dev.Disk(), ino') == GrowSpec(old(dev.Disk()), alloc.Globals(), ino, newSize)
    {
      var entries := GrowEntries(ino, newSize);
      rc := dev.WriteBlock(ino.head, EncodePointers(entries));
      ino' := ino.(size := newSize);
      rc := 0;
    }

    /** The corrected rollback loop: give back the blocks entries current + 1
        .. from name. */
    method ReleaseEntries(e: seq<nat>, from: nat, current: nat)
      requires Valid() && |e| == POINTERS_PER_BLOCK && from < POINTERS_PER_BLOCK
      modifies dev.blocks
      ensures Valid()
      ensures dev.Disk() == Release(old(dev.Disk()), alloc.Globals(), e, from, current)
    {
      ghost var d := dev.Disk();
      ghost var L := alloc.Globals();
      var j: nat := from;
      while j >= current + 1
        invariant j <= from && Valid() && alloc.Globals() == L
        invariant Release(d, L, e, from, current) == Release(dev.Disk(), L, e, j, current)
      {
        if alloc.firstBlock + e[j] / BITS_PER_BLOCK < NUM_BLOCKS {
          alloc.DeallocateIntended(e[j]);
        }
        j := j - 1;
      }
    }

    /** ifile_grow made all-or-nothing (see GrowIntendedSpec). */
    method GrowIntended(ino: Inode, newSize: nat) returns (rc: int, ino': Inode)
      requires Valid() && newSize < MAX_FILE_SIZE
      modifies dev.blocks
      ensures Valid()
      ensures (dev.Disk(), ino', rc) == GrowIntendedSpec(old(dev.Disk()), alloc.Globals(), ino, newSize)
    {
      GrowIntendedSettles(dev.Disk(), alloc.Globals(), ino, newSize);
      var entries, stop := FillFromHead(Intended, ino, newSize);
      if stop <= newSize / 4096 {
        ReleaseEntries(entries, stop - 1, ino.size / 4096);
        return -1, ino;
      }
      rc := dev.WriteBlock(ino.head, EncodePointers(entries));
      return 0, ino.(size := newSize);
    }
    /** ifile_create (specified by its comments; see CreateSpec). */
    method Create(id: nat) returns (rc: int)
      requires Valid()
      modifies dev.blocks
      ensures Valid()
      ensures (dev.Disk(), rc) == CreateSpec(old(dev.Disk()), alloc.Globals(), id)
    {
      if id >= MAX_FILES {
        return -1;
      }
      var head := alloc.AllocateIntended();
      if head == -1 {
        return -1;
      }
      rc := CreateWithPointerBlock(id, head);
    }

    /** The rest of ifile_create once its pointer block `head` is allocated:
        allocate the data block, giving `head` back when that fails, and
        otherwise write the inode and the pointer block. */
    method CreateWithPointerBlock(id: nat, head: nat) returns (rc: int)
      requires Valid() && id < MAX_FILES
      modifies dev.blocks
      ensures Valid()
      ensures (dev.Disk(), rc) == CreateWithData(AllocateSpec(old(dev.Disk()), alloc.Globals(), Intended), alloc.Globals(), id, head)
    {
      var data := alloc.AllocateIntended();
      if data == -1 {
        if alloc.firstBlock + head / BITS_PER_BLOCK < NUM_BLOCKS {
          alloc.DeallocateIntended(head);
        }
        return -1;
      }
      WriteNewFile(id, head, data);
      return 0;
    }

    /** The writes of a successful ifile_create: inode id becomes a used,
        empty file with pointer block `head`, and that block receives the
        entries naming data block `data`. */
    method WriteNewFile(id: nat, head: nat, data: nat)
      requires Valid() && id < MAX_FILES
      modifies dev.blocks
      ensures Valid()
      ensures dev.Disk() == Store(StoreInode(old(dev.Disk()), id, Inode(true, 0, head)), head, EncodePointers(FirstEntries(data)))
    {
      var block := ZeroBlock();
      var r;
      r, block := dev.ReadBlock(id / 128, block);
      block := PutInode(block, id % 128, Inode(true, 0, head));
      r := dev.WriteBlock(id / 128, block);
      // Every entry of the new pointer block is overwritten, so its old
      // contents do not matter.
      r := dev.WriteBlock(head, EncodePointers(FirstEntries(data)));
    }

    /** The inode numbered id, read from its inode block. */
    method ReadInode(id: nat) returns (block: seq<byte>, ino: Inode)
      requires Valid() && id < MAX_FILES
      ensures block == dev.Disk()[id / 128] && ino == InodeOf(dev.Disk(), id)
    {
      var r;
      r, block := dev.ReadBlock(id / 128, ZeroBlock());
      ino := InodeAt(block, id % 128);
    }

    /** The entries of pointer block `head`, read into a zeroed buffer. */
    method ReadPointers(head: nat) returns (e: seq<nat>)
      requires Valid()
      ensures e == PointersAt(dev.Disk(), head)
    {
      var r, block := dev.ReadBlock(head, ZeroBlock());
      e := DecodePointers(block);
    }

    /** ifile_read (specified by its comments; see ReadSpec).  The bytes land
        in buffer[..n] when every block of the range is on the device. */
    method Read(id: nat, buffer: array<byte>, n: nat, from: nat) returns (rc: int)
      requires Valid() && n <= buffer.Length && buffer as object != dev.blocks
      modifies buffer
      ensures rc == 0 || rc == -1
      ensures rc == 0 <==> ReadSpec(dev.Disk(), id, from, n).Some?
      ensures rc == 0 && Mapped(PointersAt(dev.Disk(), InodeOf(dev.Disk(), id).head), from, n) ==>
              buffer[..n] == ReadSpec(dev.Disk(), id, from, n).value
      ensures rc != 0 ==> buffer[..] == old(buffer[..])
    {
      if id >= MAX_FILES {
        return -1;
      }
      var block, ino := ReadInode(id);
      if !ino.used || from + n > ino.size || from + n >= MAX_FILE_SIZE {
        return -1;
      }
      var e := ReadPointers(ino.head);
      rc := PointersRead(dev, e, buffer, n, from);
    }

    /** The checks and the growth at the start of ifile_write for a write
        ending at byte `end` (see WritePrepare); on failure nothing has
        changed. */
    method PrepareWrite(id: nat, end: nat) returns (rc: int, ino: Inode)
      requires Valid()
      modifies dev.blocks
      ensures Valid()
      ensures (dev.Disk(), ino, rc) == WritePrepare(old(dev.Disk()), alloc.Globals(), id, end)
      ensures rc != 0 ==> dev.Disk() == old(dev.Disk())
    {
      ghost var d, L := dev.Disk(), alloc.Globals();
      if id >= MAX_FILES {
        return -1, Inode(false, 0, 0);
      }
      var block;
      block, ino := ReadInode(id);
      rc, ino := CheckAndGrow(id, ino, end, d, L);
    }

    /** The checks of ifile_write on inode id, read as ino, for a write
        ending at byte `end`: -1 for an unused inode or a range reaching past
        the pointer block, 0 when the file is long enough, and otherwise the
        growth. */
    method CheckAndGrow(id: nat, ino: Inode, end: nat, ghost d: seq<seq<byte>>, ghost L: Layout) returns (rc: int, ino': Inode)
      requires Valid() && d == dev.Disk() && L == alloc.Globals() && id < MAX_FILES
      modifies dev.blocks
      ensures Valid() && alloc.Globals() == L
      ensures (dev.Disk(), ino', rc) == WriteChecks(d, L, id, ino, end)
      ensures rc != 0 ==> dev.Disk() == d
    {
      if !ino.used || end >= MAX_FILE_SIZE {
        return -1, ino;
      }
      if end <= ino.size {
        return 0, ino;
      }
      rc, ino' := GrowAndPersist(id, ino, end, d, L);
    }

    /** The growth branch of ifile_write: grow the file and, on success,
        write the inode block back with the grown inode. */
    method GrowAndPersist(id: nat, ino: Inode, newSize: nat, ghost d: seq<seq<byte>>, ghost L: Layout) returns (rc: int, ino': Inode)
      requires Valid() && d == dev.Disk() && L == alloc.Globals()
      requires id < MAX_FILES && ino.used && ino.size < newSize < MAX_FILE_SIZE
      modifies dev.blocks
      ensures Valid() && alloc.Globals() == L
      ensures (dev.Disk(), ino', rc) == WriteChecks(d, L, id, ino, newSize)
      ensures rc != 0 ==> dev.Disk() == d
    {
      var block := ZeroBlock();
      var r;
      r, block := dev.ReadBlock(id / 128, block);
      rc, ino' := GrowIntended(ino, newSize);
      if rc != 0 {
        GrowIntendedFails(d, alloc.Globals(), ino, newSize);
        return;
      }
      r := dev.WriteBlock(id / 128, PutInode(block, id % 128, ino'));
    }

    /** ifile_write (specified by its comments; see WriteSpec). */
    method Write(id: nat, buffer: seq<byte>, n: nat, to: nat) returns (rc: int)
      requires Valid() && n <= |buffer|
      modifies dev.blocks
      ensures Valid()
      ensures (dev.Disk(), rc) == WriteSpec(old(dev.Disk()), alloc.Globals(), id, buffer[..n], to)
    {
      var end := WriteEnd(to, buffer[..n]);
      rc := WriteEnding(id, buffer, n, to, end);
    }

    /** ifile_write for a range ending at byte `end`: the checks and the
        growth, then the bytes through the pointer block. */
    method WriteEnding(id: nat, buffer: seq<byte>, n: nat, to: nat, end: nat) returns (rc: int)
      requires Valid() && n <= |buffer| && end == to + n
      modifies dev.blocks
      ensures Valid()
      ensures (dev.Disk(), rc) == WriteData(WritePrepare(old(dev.Disk()), alloc.Globals(), id, end), old(dev.Disk()), buffer[..n], to)
    {
      ghost var p := WritePrepare(dev.Disk(), alloc.Globals(), id, end);
      var ino;
      rc, ino := PrepareWrite(id, end);
      if rc != 0 {
        return -1;
      }
      rc := WriteThrough(ino, buffer, n, to, p, old(dev.Disk()));
    }

    /** The data part of ifile_write, once the checks and the growth left
        the device as p.0 and the inode as p.1 = ino. */
    method WriteThrough(ino: Inode, buffer: seq<byte>, n: nat, to: nat, ghost p: (seq<seq<byte>>, Inode, int), ghost d: seq<seq<byte>>) returns (rc: int)
      requires Valid() && n <= |buffer| && IsDisk(d)
      requires p.0 == dev.Disk() && p.1 == ino && p.2 == 0 && to + n < MAX_FILE_SIZE
      modifies dev.blocks
      ensures Valid()
      ensures (dev.Disk(), rc) == WriteData(p, d, buffer[..n], to)
    {
      var e := ReadPointers(ino.head);
      rc := PointersWrite(dev, e, buffer, n, to);
    }
  }

}

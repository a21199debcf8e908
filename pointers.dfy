/** The indirect-block layer's byte ranges.  File byte p lives at offset
    p % BLOCK_SIZE of the device block named by pointer entry p / BLOCK_SIZE.
    A range [from, from + n) is split into a partial first block, whole middle
    blocks and a partial last block (the last possibly empty). */
module Pointers {
  import opened Storage
  import opened Records

  /** The range's last block index (from + n) / BLOCK_SIZE is an entry of the
      pointer block e. */
  ghost predicate InFile(e: seq<nat>, from: nat, n: nat) {
    |e| == POINTERS_PER_BLOCK && from + n < MAX_FILE_SIZE
  }

  /** The device block that holds file byte p. */
  function BlockOf(e: seq<nat>, p: nat): nat
    requires |e| == POINTERS_PER_BLOCK && p < MAX_FILE_SIZE
  {
    e[p / 4096]
  }

  /** Every byte of [from, from + n) lies in a block on the device. */
  ghost predicate Mapped(e: seq<nat>, from: nat, n: nat)
    requires InFile(e, from, n)
  {
    forall p :: from <= p < from + n ==> BlockOf(e, p) < NUM_BLOCKS
  }

  /** File byte p of a file whose pointer block is e (0 when its entry names no
      device block). */
  ghost function FileByte(d: seq<seq<byte>>, e: seq<nat>, p: nat): byte
    requires IsDisk(d) && |e| == POINTERS_PER_BLOCK && p < MAX_FILE_SIZE
  {
    var b := BlockOf(e, p);
    if b < NUM_BLOCKS then d[b][p % 4096] else 0
  }

  /** The n file bytes starting at from. */
  ghost function ReadSpan(d: seq<seq<byte>>, e: seq<nat>, from: nat, n: nat): (r: seq<byte>)
    requires IsDisk(d) && InFile(e, from, n)
    ensures |r| == n
  {
    seq(n, t requires 0 <= t < n => FileByte(d, e, from + t))
  }

  /** The entries of blocks [lo, hi) name different blocks. */
  ghost predicate Distinct(e: seq<nat>, lo: nat, hi: nat)
    requires hi <= |e|
  {
    forall i, j :: lo <= i < j < hi ==> e[i] != e[j]
  }

  /** The entries of blocks [lo, hi) name blocks on the device. */
  ghost predicate OnDevice(e: seq<nat>, lo: nat, hi: nat)
    requires hi <= |e|
  {
    forall i :: lo <= i < hi ==> e[i] < NUM_BLOCKS
  }

  /** First byte of block i that a range starting at `to` touches. */
  function Lo(i: nat, to: nat): nat {
    if i == to / 4096 then to % 4096 else 0
  }

  /** One past the last byte of block i that the range [to, to + n) touches. */
  function Hi(i: nat, to: nat, n: nat): nat {
    if i == (to + n) / 4096 then (to + n) % 4096 else 4096
  }

  /** A position of a block-aligned byte: byte i * BLOCK_SIZE + o is byte o of block i. */
  lemma ByteInBlock(p: nat, i: nat, o: nat)
    requires p == i * 4096 + o && o < 4096
    ensures p / 4096 == i && p % 4096 == o
  {
  }

  /** The part of buf destined for block i of the file, when buf is written at `to`. */
  ghost function Piece(buf: seq<byte>, to: nat, i: nat): (piece: seq<byte>)
    requires to / 4096 <= i <= (to + |buf|) / 4096
    ensures Lo(i, to) <= Hi(i, to, |buf|) <= 4096
    ensures |piece| == Hi(i, to, |buf|) - Lo(i, to)
  {
    buf[i * 4096 + Lo(i, to) - to .. i * 4096 + Hi(i, to, |buf|) - to]
  }

  /** Byte o of block i receives byte i * BLOCK_SIZE + o - to of buf. */
  lemma PieceByte(buf: seq<byte>, to: nat, i: nat, o: nat)
    requires to / 4096 <= i <= (to + |buf|) / 4096
    requires Lo(i, to) <= o < Hi(i, to, |buf|)
    ensures to <= i * 4096 + o < to + |buf|
    ensures Piece(buf, to, i)[o - Lo(i, to)] == buf[i * 4096 + o - to]
  {
  }

  /** Byte to + t of a range of n bytes lies in block (to + t) / BLOCK_SIZE of
      the range, inside that block's touched part. */
  lemma RangeByte(to: nat, n: nat, t: nat)
    requires t < n
    ensures var p := to + t;
            var i := p / 4096;
            && to / 4096 <= i <= (to + n) / 4096
            && Lo(i, to) <= p % 4096 < Hi(i, to, n)
            && i * 4096 + p % 4096 == p
  {
  }

  /** The block after bytes [lo, lo + |piece|) are replaced by piece. */
  function Overlay(blk: seq<byte>, lo: nat, piece: seq<byte>): (r: seq<byte>)
    requires lo + |piece| <= |blk|
    ensures |r| == |blk|
    ensures forall o :: 0 <= o < |r| ==> r[o] == if lo <= o < lo + |piece| then piece[o - lo] else blk[o]
  {
    blk[..lo] + piece + blk[lo + |piece|..]
  }

  lemma OverlayInside(blk: seq<byte>, lo: nat, piece: seq<byte>, o: nat)
    requires lo <= o < lo + |piece| <= |blk|
    ensures Overlay(blk, lo, piece)[o] == piece[o - lo]
  {
  }

  lemma OverlayOutside(blk: seq<byte>, lo: nat, piece: seq<byte>, o: nat)
    requires lo + |piece| <= |blk| && o < |blk| && !(lo <= o < lo + |piece|)
    ensures Overlay(blk, lo, piece)[o] == blk[o]
  {
  }

  /** The device after block i of the range is read, patched and written back;
      a block number off the device is neither read nor written. */
  ghost function PatchBlock(d: seq<seq<byte>>, e: seq<nat>, buf: seq<byte>, to: nat, i: nat): (d': seq<seq<byte>>)
    requires IsDisk(d) && InFile(e, to, |buf|) && to / 4096 <= i <= (to + |buf|) / 4096
    ensures IsDisk(d')
  {
    var b := e[i];
    if b < NUM_BLOCKS then d[b := Overlay(d[b], Lo(i, to), Piece(buf, to, i))] else d
  }

  /** The device after blocks to / BLOCK_SIZE up to k - 1 of the range are
      patched, in ascending order. */
  ghost function WriteSpan(d: seq<seq<byte>>, e: seq<nat>, buf: seq<byte>, to: nat, k: nat): (d': seq<seq<byte>>)
    requires IsDisk(d) && InFile(e, to, |buf|) && to / 4096 <= k <= (to + |buf|) / 4096 + 1
    ensures IsDisk(d')
    decreases k
  {
    if k == to / 4096 then d
    else PatchBlock(WriteSpan(d, e, buf, to, k - 1), e, buf, to, k - 1)
  }

  /** A block that no entry of the patched blocks names keeps its contents. */
  lemma {:induction false} WriteSpanOutside(d: seq<seq<byte>>, e: seq<nat>, buf: seq<byte>, to: nat, k: nat, m: nat)
    requires IsDisk(d) && InFile(e, to, |buf|) && to / 4096 <= k <= (to + |buf|) / 4096 + 1
    requires m < NUM_BLOCKS && forall j :: to / 4096 <= j < k ==> e[j] != m
    ensures WriteSpan(d, e, buf, to, k)[m] == d[m]
    decreases k
  {
    if k > to / 4096 {
      WriteSpanOutside(d, e, buf, to, k - 1, m);
    }
  }

  /** With distinct entries, block i's device block ends up holding its old
      contents with block i's piece of buf in place. */
  lemma {:induction false} WriteSpanAt(d: seq<seq<byte>>, e: seq<nat>, buf: seq<byte>, to: nat, k: nat, i: nat)
    requires IsDisk(d) && InFile(e, to, |buf|) && to / 4096 <= i < k <= (to + |buf|) / 4096 + 1
    requires Distinct(e, to / 4096, k) && e[i] < NUM_BLOCKS
    ensures Lo(i, to) + |Piece(buf, to, i)| <= 4096
    ensures WriteSpan(d, e, buf, to, k)[e[i]] == Overlay(d[e[i]], Lo(i, to), Piece(buf, to, i))
    decreases k
  {
    var first := to / 4096;
    if i == k - 1 {
      WriteSpanOutside(d, e, buf, to, k - 1, e[i]);
    } else {
      assert e[k - 1] != e[i];
      WriteSpanAt(d, e, buf, to, k - 1, i);
    }
  }

  /** After buf is written at `to`, byte o of block i of the range holds the
      byte of buf destined for it, provided the entries involved are distinct
      device blocks. */
  lemma WrittenByte(d: seq<seq<byte>>, e: seq<nat>, buf: seq<byte>, to: nat, i: nat, o: nat)
    requires IsDisk(d) && InFile(e, to, |buf|)
    requires to / 4096 <= i <= (to + |buf|) / 4096 && Lo(i, to) <= o < Hi(i, to, |buf|)
    requires Distinct(e, to / 4096, (to + |buf|) / 4096 + 1) && e[i] < NUM_BLOCKS
    ensures to <= i * 4096 + o < to + |buf|
    ensures WriteSpan(d, e, buf, to, (to + |buf|) / 4096 + 1)[e[i]][o] == buf[i * 4096 + o - to]
  {
    var piece := Piece(buf, to, i);
    WriteSpanAt(d, e, buf, to, (to + |buf|) / 4096 + 1, i);
    OverlayInside(d[e[i]], Lo(i, to), piece, o);
    PieceByte(buf, to, i, o);
  }

  lemma SpanIs(d: seq<seq<byte>>, e: seq<nat>, from: nat, buf: seq<byte>)
    requires IsDisk(d) && InFile(e, from, |buf|)
    requires forall t :: 0 <= t < |buf| ==> FileByte(d, e, from + t) == buf[t]
    ensures ReadSpan(d, e, from, |buf|) == buf
  {
  }

  /** File byte p, with p == i * 4096 + o, is byte o of the block entry i names. */
  lemma FileByteAt(d: seq<seq<byte>>, e: seq<nat>, p: nat, i: nat, o: nat)
    requires IsDisk(d) && |e| == POINTERS_PER_BLOCK && p < MAX_FILE_SIZE
    requires p == i * 4096 + o && o < 4096 && e[i] < NUM_BLOCKS
    ensures FileByte(d, e, p) == d[e[i]][o]
  {
    ByteInBlock(p, i, o);
  }

  lemma ReadAfterWriteByte(d: seq<seq<byte>>, e: seq<nat>, buf: seq<byte>, to: nat, t: nat)
    requires IsDisk(d) && InFile(e, to, |buf|) && t < |buf|
    requires Distinct(e, to / 4096, (to + |buf|) / 4096 + 1)
    requires OnDevice(e, to / 4096, (to + |buf|) / 4096 + 1)
    ensures FileByte(WriteSpan(d, e, buf, to, (to + |buf|) / 4096 + 1), e, to + t) == buf[t]
  {
    var p := to + t;
    var i, o := p / 4096, p % 4096;
    RangeByte(to, |buf|, t);
    assert e[i] < NUM_BLOCKS;
    WrittenByte(d, e, buf, to, i, o);
    FileByteAt(WriteSpan(d, e, buf, to, (to + |buf|) / 4096 + 1), e, p, i, o);
  }

  /** Reading the range back after writing buf there yields buf, whatever the
      alignment, provided the entries involved are distinct device blocks. */
  lemma ReadAfterWrite(d: seq<seq<byte>>, e: seq<nat>, buf: seq<byte>, to: nat)
    requires IsDisk(d) && InFile(e, to, |buf|)
    requires Distinct(e, to / 4096, (to + |buf|) / 4096 + 1)
    requires OnDevice(e, to / 4096, (to + |buf|) / 4096 + 1)
    ensures ReadSpan(WriteSpan(d, e, buf, to, (to + |buf|) / 4096 + 1), e, to, |buf|) == buf
  {
    var d' := WriteSpan(d, e, buf, to, (to + |buf|) / 4096 + 1);
    forall t | 0 <= t < |buf| ensures FileByte(d', e, to + t) == buf[t] {
      ReadAfterWriteByte(d, e, buf, to, t);
    }
    SpanIs(d', e, to, buf);
  }

  /** A byte of a touched block that lies outside the range is outside the
      block's touched part. */
  lemma OutsideRange(to: nat, n: nat, p: nat)
    requires !(to <= p < to + n) && to / 4096 <= p / 4096 <= (to + n) / 4096
    ensures !(Lo(p / 4096, to) <= p % 4096 < Hi(p / 4096, to, n))
  {
  }

  /** After buf is written at `to`, a byte of block i outside the block's
      touched part keeps its value, provided the entries are distinct. */
  lemma KeptByte(d: seq<seq<byte>>, e: seq<nat>, buf: seq<byte>, to: nat, i: nat, o: nat)
    requires IsDisk(d) && InFile(e, to, |buf|)
    requires to / 4096 <= i <= (to + |buf|) / 4096 && o < 4096 && !(Lo(i, to) <= o < Hi(i, to, |buf|))
    requires Distinct(e, to / 4096, (to + |buf|) / 4096 + 1) && e[i] < NUM_BLOCKS
    ensures WriteSpan(d, e, buf, to, (to + |buf|) / 4096 + 1)[e[i]][o] == d[e[i]][o]
  {
    var piece := Piece(buf, to, i);
    WriteSpanAt(d, e, buf, to, (to + |buf|) / 4096 + 1, i);
    OverlayOutside(d[e[i]], Lo(i, to), piece, o);
  }

  /** Writing the range leaves every file byte outside it as it was, in touched
      blocks and elsewhere, provided the byte's block is not named by a
      different entry of the range. */
  lemma WriteKeepsOtherBytes(d: seq<seq<byte>>, e: seq<nat>, buf: seq<byte>, to: nat, p: nat)
    requires IsDisk(d) && InFile(e, to, |buf|) && p < MAX_FILE_SIZE && !(to <= p < to + |buf|)
    requires Distinct(e, to / 4096, (to + |buf|) / 4096 + 1)
    requires forall i :: to / 4096 <= i <= (to + |buf|) / 4096 && i != p / 4096 ==> e[i] != BlockOf(e, p)
    ensures FileByte(WriteSpan(d, e, buf, to, (to + |buf|) / 4096 + 1), e, p) == FileByte(d, e, p)
  {
    var first := to / 4096;
    var k := (to + |buf|) / 4096 + 1;
    var i := p / 4096;
    var b := BlockOf(e, p);
    if b < NUM_BLOCKS {
      if first <= i < k {
        OutsideRange(to, |buf|, p);
        KeptByte(d, e, buf, to, i, p % 4096);
      } else {
        WriteSpanOutside(d, e, buf, to, k, b);
      }
    }
  }

  /** pointers_read's split: a range within one block is short enough that
      offset plus length stays inside it; otherwise the partial first block,
      the whole middle blocks and the partial last block add up to n bytes. */
  lemma SplitCovers(from: nat, n: nat)
    ensures var first := from / 4096;
            var last := (from + n) / 4096;
            var firstOffset := from % 4096;
            var lastOffset := (from + n) % 4096;
            && first <= last
            && (first == last ==> firstOffset + n < 4096 && lastOffset == firstOffset + n)
            && (first < last ==> (4096 - firstOffset) + (last - first - 1) * 4096 + lastOffset == n)
  {
  }

  /** memcpy: src is copied into buffer at offset `at`; nothing else changes. */
  method Copy(buffer: array<byte>, at: nat, src: seq<byte>)
    requires at + |src| <= buffer.Length
    modifies buffer
    ensures forall t :: 0 <= t < buffer.Length ==> buffer[t] == if at <= t < at + |src| then src[t - at] else old(buffer[t])
  {
    forall t | at <= t < at + |src| {
      buffer[t] := src[t - at];
    }
  }

  /** The single-block case: the range stays inside block from / BLOCK_SIZE. */
  lemma SingleSplit(from: nat, n: nat)
    requires from / 4096 == (from + n) / 4096
    ensures from % 4096 + n == (from + n) % 4096 < 4096
    ensures from == from / 4096 * 4096 + from % 4096
  {
  }

  /** The first block of a range over several blocks contributes
      BLOCK_SIZE - from % BLOCK_SIZE bytes and ends on a block boundary. */
  lemma FirstSplit(from: nat, n: nat)
    requires from / 4096 < (from + n) / 4096
    ensures 4096 - from % 4096 <= n
    ensures from == from / 4096 * 4096 + from % 4096
    ensures from + (4096 - from % 4096) == (from / 4096 + 1) * 4096
  {
  }

  /** A middle block contributes a whole block. */
  lemma MiddleSplit(from: nat, n: nat, i: nat, position: nat)
    requires from / 4096 < i < (from + n) / 4096 && from + position == i * 4096
    ensures position + 4096 <= n && from + position + 4096 == (i + 1) * 4096
  {
  }

  /** The last block contributes the remaining (from + n) % BLOCK_SIZE bytes. */
  lemma LastSplit(from: nat, n: nat, position: nat)
    requires from + position == (from + n) / 4096 * 4096
    ensures position + (from + n) % 4096 == n
  {
  }

  /** A buffer whose first n bytes are the file bytes from `from` on holds
      the span. */
  lemma SpanFilled(d: seq<seq<byte>>, e: seq<nat>, from: nat, n: nat, b: seq<byte>)
    requires IsDisk(d) && InFile(e, from, n) && n <= |b|
    requires forall t :: 0 <= t < n ==> b[t] == FileByte(d, e, from + t)
    ensures b[..n] == ReadSpan(d, e, from, n)
  {
  }

  /** One read and one memcpy of pointers_read: block i is read into `block`
      (which keeps its old contents when the read fails) and its k bytes from
      offset lo are copied to buffer[position ..]. */
  method CopyPart(dev: Device, ghost d: seq<seq<byte>>, e: seq<nat>, buffer: array<byte>, ghost n: nat, from: nat, position: nat, i: nat, lo: nat, k: nat, block: seq<byte>)
    returns (filled: seq<byte>)
    requires dev.Valid() && dev.Disk() == d && InFile(e, from, n) && n <= buffer.Length && buffer as object != dev.blocks
    requires i <= (from + n) / 4096 && from + position == i * 4096 + lo
    requires lo + k <= 4096 && position + k <= n && |block| == 4096
    requires Mapped(e, from, n) ==> buffer[..position] == ReadSpan(d, e, from, position)
    modifies buffer
    ensures |filled| == 4096 && dev.Valid() && dev.Disk() == d
    ensures Mapped(e, from, n) ==> buffer[..position + k] == ReadSpan(d, e, from, position + k)
    ensures buffer[n..] == old(buffer[n..])
  {
    var rc;
    rc, filled := dev.ReadBlock(e[i], block);
    ghost var before := buffer[..];
    Copy(buffer, position, filled[lo .. lo + k]);
    assert buffer[n..] == old(buffer[n..]) by {
      forall t | n <= t < buffer.Length ensures buffer[t] == before[t] { }
    }
    if Mapped(e, from, n) {
      if k > 0 {
        ByteInBlock(from + position, i, lo);
        assert BlockOf(e, from + position) == e[i];
      }
      forall t | 0 <= t < position + k ensures buffer[t] == FileByte(d, e, from + t) {
        if t >= position {
          ByteInBlock(from + t, i, lo + (t - position));
        } else {
          assert before[..position][t] == ReadSpan(d, e, from, position)[t];
        }
      }
      SpanFilled(d, e, from, position + k, buffer[..]);
      assert buffer[..][..position + k] == buffer[..position + k];
    }
  }

  /** The middle loop of pointers_read: blocks i .. last - 1 are read whole and
      appended to the buffer. */
  method CopyMiddle(dev: Device, ghost d: seq<seq<byte>>, e: seq<nat>, buffer: array<byte>, n: nat, from: nat, position: nat, i: nat, block: seq<byte>)
    returns (position': nat, filled: seq<byte>)
    requires dev.Valid() && dev.Disk() == d && InFile(e, from, n) && n <= buffer.Length && buffer as object != dev.blocks
    requires from / 4096 < i <= (from + n) / 4096 && from + position == i * 4096 && position <= n
    requires |block| == 4096
    requires Mapped(e, from, n) ==> buffer[..position] == ReadSpan(d, e, from, position)
    modifies buffer
    ensures from + position' == (from + n) / 4096 * 4096 && position' <= n
    ensures |filled| == 4096 && dev.Valid() && dev.Disk() == d
    ensures Mapped(e, from, n) ==> buffer[..position'] == ReadSpan(d, e, from, position')
    ensures buffer[n..] == old(buffer[n..])
  {
    ghost var mapped := Mapped(e, from, n);
    var last := (from + n) / 4096;
    position', filled := position, block;
    var j := i;
    while j < last
      invariant i <= j <= last
      invariant from + position' == j * 4096 && position' <= n && |filled| == 4096
      invariant dev.Valid() && dev.Disk() == d
      invariant mapped ==> buffer[..position'] == ReadSpan(d, e, from, position')
      invariant buffer[n..] == old(buffer[n..])
    {
      MiddleSplit(from, n, j, position');
      filled := CopyPart(dev, d, e, buffer, n, from, position', j, 0, 4096, filled);
      position' := position' + 4096;
      j := j + 1;
    }
  }

  /** pointers_read: copies the n file bytes starting at from into buffer,
      reading the first block, the middle blocks and the last block once each.
      A failed read leaves the block buffer as it was, so the result is stated
      for a range whose bytes all lie on the device. */
  method PointersRead(dev: Device, e: seq<nat>, buffer: array<byte>, n: nat, from: nat) returns (rc: int)
    requires dev.Valid() && InFile(e, from, n) && n <= buffer.Length
    requires buffer as object != dev.blocks
    modifies buffer
    ensures rc == 0
    ensures Mapped(e, from, n) ==> buffer[..n] == ReadSpan(dev.Disk(), e, from, n)
    ensures buffer[n..] == old(buffer[n..])
  {
    ghost var d := dev.Disk();
    var firstBlockNumber := from / 4096;
    var firstBlockOffset := from % 4096;
    var lastBlockNumber := (from + n) / 4096;
    var lastBlockOffset := (from + n) % 4096;
    var block := ZeroBlock();
    assert buffer[..0] == ReadSpan(d, e, from, 0);

    if firstBlockNumber == lastBlockNumber {
      SingleSplit(from, n);
      block := CopyPart(dev, d, e, buffer, n, from, 0, firstBlockNumber, firstBlockOffset, n, block);
      return 0;
    }

    FirstSplit(from, n);
    block := CopyPart(dev, d, e, buffer, n, from, 0, firstBlockNumber, firstBlockOffset, 4096 - firstBlockOffset, block);
    var position;
    position, block := CopyMiddle(dev, d, e, buffer, n, from, 4096 - firstBlockOffset, firstBlockNumber + 1, block);

    LastSplit(from, n, position);
    block := CopyPart(dev, d, e, buffer, n, from, position, lastBlockNumber, 0, lastBlockOffset, block);
    return 0;
  }

  /** Read block b, put piece at offset lo, write it back. */
  method Patch(dev: Device, b: nat, lo: nat, piece: seq<byte>)
    requires dev.Valid() && lo + |piece| <= 4096
    modifies dev.blocks
    ensures dev.Valid()
    ensures dev.Disk() == if b < NUM_BLOCKS then old(dev.Disk())[b := Overlay(old(dev.Disk())[b], lo, piece)] else old(dev.Disk())
  {
    var block := ZeroBlock();
    var rc;
    rc, block := dev.ReadBlock(b, block);
    block := Overlay(block, lo, piece);
    rc := dev.WriteBlock(b, block);
  }

  /** One more block of the range patched. */
  lemma PatchStep(d: seq<seq<byte>>, e: seq<nat>, buf: seq<byte>, to: nat, i: nat)
    requires IsDisk(d) && InFile(e, to, |buf|) && to / 4096 <= i <= (to + |buf|) / 4096
    ensures WriteSpan(d, e, buf, to, i + 1) == PatchBlock(WriteSpan(d, e, buf, to, i), e, buf, to, i)
  {
  }

  /** A range within one block: the whole of buf goes to offset to % BLOCK_SIZE. */
  lemma SinglePiece(buf: seq<byte>, to: nat)
    requires to / 4096 == (to + |buf|) / 4096
    ensures Lo(to / 4096, to) == to % 4096
    ensures Piece(buf, to, to / 4096) == buf
  {
  }

  /** A range over several blocks: the first block receives the first
      BLOCK_SIZE - to % BLOCK_SIZE bytes of buf at offset to % BLOCK_SIZE. */
  lemma FirstPiece(buf: seq<byte>, to: nat)
    requires to / 4096 < (to + |buf|) / 4096
    ensures Lo(to / 4096, to) == to % 4096 && 4096 - to % 4096 <= |buf|
    ensures to + (4096 - to % 4096) == (to / 4096 + 1) * 4096
    ensures Piece(buf, to, to / 4096) == buf[..4096 - to % 4096]
  {
  }

  /** A middle block receives BLOCK_SIZE bytes of buf, starting where the
      previous block's stopped. */
  lemma MiddlePiece(buf: seq<byte>, to: nat, i: nat, position: nat)
    requires to / 4096 < i < (to + |buf|) / 4096 && to + position == i * 4096
    ensures Lo(i, to) == 0 && position + 4096 <= |buf| && to + position + 4096 == (i + 1) * 4096
    ensures Piece(buf, to, i) == buf[position .. position + 4096]
  {
  }

  /** The last block of a range over several blocks receives the rest of buf
      at offset 0. */
  lemma LastPiece(buf: seq<byte>, to: nat, position: nat)
    requires to / 4096 < (to + |buf|) / 4096 && to + position == (to + |buf|) / 4096 * 4096
    ensures Lo((to + |buf|) / 4096, to) == 0 && position + (to + |buf|) % 4096 == |buf|
    ensures Piece(buf, to, (to + |buf|) / 4096) == buf[position..]
  {
  }

  /** Read-modify-write of block i of the range: the device moves from the
      state with blocks before i patched to the state with block i patched too. */
  method PatchNext(dev: Device, ghost d: seq<seq<byte>>, e: seq<nat>, buf: seq<byte>, to: nat, i: nat, lo: nat, piece: seq<byte>)
    requires dev.Valid() && IsDisk(d) && InFile(e, to, |buf|) && to / 4096 <= i <= (to + |buf|) / 4096
    requires lo == Lo(i, to) && piece == Piece(buf, to, i)
    requires dev.Disk() == WriteSpan(d, e, buf, to, i)
    modifies dev.blocks
    ensures dev.Valid() && dev.Disk() == WriteSpan(d, e, buf, to, i + 1)
  {
    PatchStep(d, e, buf, to, i);
    Patch(dev, e[i], lo, piece);
  }

  /** pointers_write (specified by its comments): read-modify-write of the
      first block, the middle blocks and the last block, so that the first n
      bytes of buffer land in [to, to + n). */
  method PointersWrite(dev: Device, e: seq<nat>, buffer: seq<byte>, n: nat, to: nat) returns (rc: int)
    requires dev.Valid() && InFile(e, to, n) && n <= |buffer|
    modifies dev.blocks
    ensures dev.Valid() && rc == 0
    ensures dev.Disk() == WriteSpan(old(dev.Disk()), e, buffer[..n], to, (to + n) / 4096 + 1)
  {
    ghost var d := dev.Disk();
    var buf := buffer[..n];
    var firstBlockNumber := to / 4096;
    var firstBlockOffset := to % 4096;
    var lastBlockNumber := (to + n) / 4096;
    var lastBlockOffset := (to + n) % 4096;

    if firstBlockNumber == lastBlockNumber {
      SinglePiece(buf, to);
      PatchNext(dev, d, e, buf, to, firstBlockNumber, firstBlockOffset, buf);
      return 0;
    }

    FirstPiece(buf, to);
    PatchNext(dev, d, e, buf, to, firstBlockNumber, firstBlockOffset, buf[..4096 - firstBlockOffset]);
    var position := 4096 - firstBlockOffset;

    var i := firstBlockNumber + 1;
    while i < lastBlockNumber
      invariant firstBlockNumber < i <= lastBlockNumber
      invariant to + position == i * 4096
      invariant dev.Valid() && dev.Disk() == WriteSpan(d, e, buf, to, i)
    {
      MiddlePiece(buf, to, i, position);
      PatchNext(dev, d, e, buf, to, i, 0, buf[position .. position + 4096]);
      position := position + 4096;
      i := i + 1;
    }

    LastPiece(buf, to, position);
    PatchNext(dev, d, e, buf, to, lastBlockNumber, 0, buf[position .. position + lastBlockOffset]);
    return 0;
  }
}

/** A session on a freshly formatted device: format with a one-block bitmap,
    create file 0, write 24 bytes at offset 0 and read them back. */
module Scenario {
  import opened Storage
  import opened Bitmap
  import opened Records
  import opened Pointers
  import opened Files

  /** The allocator's globals after the corrected format. */
  function FormattedLayout(): (L: Layout)
    ensures Formatted(L) && L.firstAllocatable == 9
  {
    Layout(8, 1, 9, NUM_BLOCKS - 1)
  }

  /** On a freshly formatted device the corrected allocator hands out blocks
      9 and then 10. */
  lemma FirstTwoAllocations(d: seq<seq<byte>>)
    requires IsDisk(d)
    ensures var a := AllocateSpec(Zeroed(d, 0, 9), FormattedLayout(), Intended);
            a.1 == 9 && AllocateSpec(a.0, FormattedLayout(), Intended).1 == 10
  {
    var z, L := Zeroed(d, 0, 9), FormattedLayout();
    FormatIntendedFirstAllocation(d);
    var p := FirstFree(z, L, Intended, 0, 0, 0).value;
    LocateBitNumber(p);
    assert p == Pos(0, 1, 1);
    var a0 := SetBit(z, L, p);
    var p' := Pos(0, 1, 2);
    SetBitEffect(z, L, p, p');
    forall q | InBitmap(L, q) && Before(q, p') ensures !Candidate(a0, L, Intended, q) {
      SetBitEffect(z, L, p, q);
    }
    FirstFreeUnique(a0, L, Intended, p');
  }

  /** Format, then create file 0: the creation succeeds, inode 0 is a used,
      empty file whose pointer block is block 9, and that block's entry 0
      names block 10. */
  lemma CreateFirstFile(d: seq<seq<byte>>)
    requires IsDisk(d)
    ensures var c := CreateSpec(Zeroed(d, 0, 9), FormattedLayout(), 0);
            && c.1 == 0 && InodeOf(c.0, 0) == Inode(true, 0, 9)
            && PointersAt(c.0, 9) == FirstEntries(10)
  {
    var z, L := Zeroed(d, 0, 9), FormattedLayout();
    FirstTwoAllocations(d);
    CreateInode(z, L, 0, 0);
    CreatePointers(z, L, 0);
  }

  /** On a device where inode 0 is an empty file with pointer block 9 whose
      entry 0 names block 10, the checks and growth of a 24-byte write at
      offset 0 succeed: the file grows to 24 bytes and its pointer block is
      unchanged. */
  lemma PrepareFirstWrite(c: seq<seq<byte>>)
    requires IsDisk(c) && InodeOf(c, 0) == Inode(true, 0, 9) && PointersAt(c, 9) == FirstEntries(10)
    ensures var p := WritePrepare(c, FormattedLayout(), 0, 24);
            p.2 == 0 && p.1 == Inode(true, 24, 9) && PointersAt(p.0, 9) == FirstEntries(10)
  {
    var L, ino, E := FormattedLayout(), InodeOf(c, 0), FirstEntries(10);
    GrowIntendedSettles(c, L, ino, 24);
    var g := Store(c, 9, EncodePointers(E));
    assert GrowIntendedSpec(c, L, ino, 24) == (g, ino.(size := 24), 0);
    var p := WritePrepare(c, L, 0, 24);
    WritePrepared(c, L, 0, 24);
    assert p.0 == Store(g, 0, PutInode(c[0], 0, ino.(size := 24)));
    StoredPointers(c, 9, E);
  }

  /** Writing 24 bytes at offset 0 of the file PrepareFirstWrite describes,
      then reading them back. */
  lemma WrittenFirstFile(c: seq<seq<byte>>, buf: seq<byte>)
    requires IsDisk(c) && InodeOf(c, 0) == Inode(true, 0, 9) && PointersAt(c, 9) == FirstEntries(10) && |buf| == 24
    ensures var w := WriteSpec(c, FormattedLayout(), 0, buf, 0);
            && w.1 == 0 && InodeOf(w.0, 0) == Inode(true, 24, 9) && PointersAt(w.0, 9) == FirstEntries(10)
            && ReadSpec(w.0, 0, 0, 24) == Some(buf)
  {
    var L := FormattedLayout();
    PrepareFirstWrite(c);
    WritePrepared(c, L, 0, 24);
    var p := WritePrepare(c, L, 0, 24);
    assert WriteSpec(c, L, 0, buf, 0) == WriteData(p, c, buf, 0);
    FirstFileData(p, c, buf);
  }

  /** The data part of that write: the bytes land in block 10, which is
      neither the inode block nor the pointer block, so both read back as
      before and the range reads back as buf. */
  lemma FirstFileData(p: (seq<seq<byte>>, Inode, int), c: seq<seq<byte>>, buf: seq<byte>)
    requires IsDisk(p.0) && IsDisk(c) && |buf| == 24
    requires p.2 == 0 && p.1 == Inode(true, 24, 9) && InodeOf(p.0, 0) == p.1 && PointersAt(p.0, 9) == FirstEntries(10)
    ensures var w := WriteData(p, c, buf, 0);
            && w.1 == 0 && InodeOf(w.0, 0) == Inode(true, 24, 9) && PointersAt(w.0, 9) == FirstEntries(10)
            && ReadSpec(w.0, 0, 0, 24) == Some(buf)
  {
    var E := FirstEntries(10);
    var w := WriteSpan(p.0, E, buf, 0, 1);
    WriteSpanOutside(p.0, E, buf, 0, 1, 0);
    WriteSpanOutside(p.0, E, buf, 0, 1, 9);
    assert PointersAt(w, 9) == E;
    ReadAfterWrite(p.0, E, buf, 0);
  }

  /** Overwriting the first 4 bytes of that 24-byte file: no growth is
      needed, the write succeeds, the file keeps its size and pointer block,
      and reading 24 bytes at offset 0 gives the new 4 bytes followed by the
      last 20 bytes written before. */
  lemma OverwriteStart(w: seq<seq<byte>>, buf: seq<byte>, buf2: seq<byte>)
    requires IsDisk(w) && InodeOf(w, 0) == Inode(true, 24, 9) && PointersAt(w, 9) == FirstEntries(10)
    requires ReadSpec(w, 0, 0, 24) == Some(buf) && |buf2| == 4
    ensures var v := WriteSpec(w, FormattedLayout(), 0, buf2, 0);
            && v.1 == 0 && InodeOf(v.0, 0) == Inode(true, 24, 9) && PointersAt(v.0, 9) == FirstEntries(10)
            && ReadSpec(v.0, 0, 0, 24) == Some(buf2 + buf[4..])
  {
    var L, E, ino := FormattedLayout(), FirstEntries(10), InodeOf(w, 0);
    assert WritePrepare(w, L, 0, 4) == (w, ino, 0);
    var v := WriteSpan(w, E, buf2, 0, 1);
    assert WriteSpec(w, L, 0, buf2, 0) == (v, 0);
    WriteSpanOutside(w, E, buf2, 0, 1, 0);
    WriteSpanOutside(w, E, buf2, 0, 1, 9);
    assert PointersAt(v, 9) == E;
    var expected := buf2 + buf[4..];
    forall t | 0 <= t < 24 ensures FileByte(v, E, t) == expected[t] {
      if t < 4 {
        ReadAfterWriteByte(w, E, buf2, 0, t);
      } else {
        WriteKeepsOtherBytes(w, E, buf2, 0, t);
        assert FileByte(w, E, t) == ReadSpan(w, E, 0, 24)[t];
      }
    }
    SpanIs(v, E, 0, expected);
  }

  /** The whole session: format, create file 0, write 24 bytes at offset 0,
      read them back, overwrite the first 4 bytes, and read 24 bytes again. */
  lemma CreateWriteOverwriteRead(d: seq<seq<byte>>, buf: seq<byte>, buf2: seq<byte>)
    requires IsDisk(d) && |buf| == 24 && |buf2| == 4
    ensures var c := CreateSpec(Zeroed(d, 0, 9), FormattedLayout(), 0);
            var w := WriteSpec(c.0, FormattedLayout(), 0, buf, 0);
            var v := WriteSpec(w.0, FormattedLayout(), 0, buf2, 0);
            && c.1 == 0 && w.1 == 0 && v.1 == 0
            && ReadSpec(w.0, 0, 0, 24) == Some(buf)
            && ReadSpec(v.0, 0, 0, 24) == Some(buf2 + buf[4..])
  {
    var c := CreateSpec(Zeroed(d, 0, 9), FormattedLayout(), 0);
    var w := WriteSpec(c.0, FormattedLayout(), 0, buf, 0);
    CreateFirstFile(d);
    WrittenFirstFile(c.0, buf);
    OverwriteStart(w.0, buf, buf2);
  }
}

/** The two on-disk record shapes of the file layer: the inode (of which only
    the used flag, the size and the pointer-block number are modelled) and the
    pointer block of 512 unsigned 64-bit entries.  Both are stored in device
    blocks as little-endian bytes. */
module Records {
  import opened Storage

  /// Inode capacity of the filesystem.
  const MAX_FILES: nat := 1024
  /// Size in bytes of one inode record (three 16-bit fields, 16 bits of flags,
  /// three 64-bit fields).
  const INODE_SIZE: nat := 32
  /// Inode records per block.
  const INODES_PER_BLOCK: nat := 4096 / 32
  /// Entries per pointer block; entry t covers file bytes [t * BLOCK_SIZE, (t + 1) * BLOCK_SIZE).
  const POINTERS_PER_BLOCK: nat := 512
  /// Largest file a single pointer block can describe.
  const MAX_FILE_SIZE: nat := 512 * 4096
  /// One more than the largest unsigned 64-bit value.
  const U64_LIMIT: nat := 0x1_0000_0000_0000_0000
  /// The entry value -1 takes once stored in an unsigned 64-bit entry.
  const NO_BLOCK: nat := U64_LIMIT - 1

  /** An inode: whether it holds a file, the file size in bytes and the number
      of its (unique) pointer block. */
  datatype Inode = Inode(used: bool, size: nat, head: nat)

  ghost predicate Storable(ino: Inode) {
    ino.size < U64_LIMIT && ino.head < U64_LIMIT
  }

  ghost predicate PointerBlock(e: seq<nat>) {
    |e| == POINTERS_PER_BLOCK && forall t :: 0 <= t < |e| ==> e[t] < U64_LIMIT
  }

  function Pow256(n: nat): (r: nat)
    ensures r > 0
  {
    if n == 0 then 1 else 256 * Pow256(n - 1)
  }

  /** The n least significant base-256 digits of x, least significant first. */
  function Digits(x: nat, n: nat): (ds: seq<nat>)
    ensures |ds| == n && forall i :: 0 <= i < n ==> ds[i] < 256
  {
    if n == 0 then [] else [x % 256] + Digits(x / 256, n - 1)
  }

  /** The number whose base-256 digits, least significant first, are ds. */
  function Value(ds: seq<nat>): nat
  {
    if ds == [] then 0 else ds[0] + 256 * Value(ds[1..])
  }

  /** Digits stored as bytes. */
  function Bytes(ds: seq<nat>): (s: seq<byte>)
    requires forall i :: 0 <= i < |ds| ==> ds[i] < 256
    ensures |s| == |ds|
  {
    seq(|ds|, i requires 0 <= i < |ds| => ds[i] as byte)
  }

  /** The unsigned value of each byte. */
  function Nats(s: seq<byte>): (ds: seq<nat>)
    ensures |ds| == |s| && forall i :: 0 <= i < |s| ==> ds[i] < 256
  {
    seq(|s|, i requires 0 <= i < |s| => s[i] as nat)
  }

  /** The n least significant bytes of x, least significant first. */
  function LittleEndian(x: nat, n: nat): (s: seq<byte>)
    ensures |s| == n
  {
    Bytes(Digits(x, n))
  }

  /** The number whose little-endian bytes are s. */
  function FromLittleEndian(s: seq<byte>): nat
  {
    Value(Nats(s))
  }

  lemma {:induction false} ValueBound(ds: seq<nat>)
    requires forall i :: 0 <= i < |ds| ==> ds[i] < 256
    ensures Value(ds) < Pow256(|ds|)
  {
    if ds != [] {
      ValueBound(ds[1..]);
    }
  }

  lemma FromLittleEndianBound(s: seq<byte>)
    ensures FromLittleEndian(s) < Pow256(|s|)
  {
    ValueBound(Nats(s));
  }

  /** The value of the n digits of x < 256^n is x. */
  lemma {:induction false} ValueDigits(x: nat, n: nat)
    requires x < Pow256(n)
    ensures Value(Digits(x, n)) == x
  {
    if n > 0 {
      var ds := Digits(x, n);
      assert ds[1..] == Digits(x / 256, n - 1);
      ValueDigits(x / 256, n - 1);
    }
  }

  lemma DivModByte(a: nat, r: nat)
    requires a < 256
    ensures (a + 256 * r) % 256 == a && (a + 256 * r) / 256 == r
  {
  }

  /** The digits of the value of ds are ds. */
  lemma {:induction false} DigitsValue(ds: seq<nat>)
    requires forall i :: 0 <= i < |ds| ==> ds[i] < 256
    ensures Digits(Value(ds), |ds|) == ds
  {
    if ds != [] {
      DigitsValue(ds[1..]);
      DivModByte(ds[0], Value(ds[1..]));
      assert ds == [ds[0]] + ds[1..];
    }
  }

  lemma ByteValue(v: nat)
    requires v < 256
    ensures (v as byte) as nat == v
  {
    assert v % 256 == v;
  }

  lemma ByteBound(b: byte)
    ensures ((b as nat) as byte) == b
  {
  }

  lemma NatsBytes(ds: seq<nat>)
    requires forall i :: 0 <= i < |ds| ==> ds[i] < 256
    ensures Nats(Bytes(ds)) == ds
  {
    forall i | 0 <= i < |ds| ensures Nats(Bytes(ds))[i] == ds[i] {
      ByteValue(ds[i]);
    }
  }

  lemma BytesNats(s: seq<byte>)
    ensures Bytes(Nats(s)) == s
  {
    forall i | 0 <= i < |s| ensures Bytes(Nats(s))[i] == s[i] {
      ByteBound(s[i]);
    }
  }

  /** Decoding the n-byte encoding of x < 256^n gives x back. */
  lemma LittleEndianRoundTrip(x: nat, n: nat)
    requires x < Pow256(n)
    ensures FromLittleEndian(LittleEndian(x, n)) == x
  {
    NatsBytes(Digits(x, n));
    ValueDigits(x, n);
  }

  /** Encoding the value of a byte sequence gives the same bytes back. */
  lemma FromLittleEndianRoundTrip(s: seq<byte>)
    ensures LittleEndian(FromLittleEndian(s), |s|) == s
  {
    DigitsValue(Nats(s));
    BytesNats(s);
  }

  lemma Pow256Of8()
    ensures Pow256(8) == U64_LIMIT
  {
  }

  /** The pointer block's bytes: entry t occupies bytes [8t, 8t + 8). */
  function EncodePointers(e: seq<nat>): (b: seq<byte>)
    requires |e| == POINTERS_PER_BLOCK
    ensures |b| == BLOCK_SIZE
  {
    seq(BLOCK_SIZE, a requires 0 <= a < BLOCK_SIZE => LittleEndian(e[a / 8], 8)[a % 8])
  }

  /** The entries a block holds when it is read as a pointer block. */
  function DecodePointers(b: seq<byte>): (e: seq<nat>)
    requires |b| == BLOCK_SIZE
    ensures |e| == POINTERS_PER_BLOCK
  {
    seq(POINTERS_PER_BLOCK, t requires 0 <= t < POINTERS_PER_BLOCK => FromLittleEndian(b[8 * t .. 8 * t + 8]))
  }

  lemma EncodeEntry(e: seq<nat>, t: nat)
    requires |e| == POINTERS_PER_BLOCK && t < POINTERS_PER_BLOCK
    ensures EncodePointers(e)[8 * t .. 8 * t + 8] == LittleEndian(e[t], 8)
  {
  }

  /** Decoding an encoded pointer block gives its entries back. */
  lemma PointersRoundTrip(e: seq<nat>)
    requires PointerBlock(e)
    ensures DecodePointers(EncodePointers(e)) == e
  {
    forall t | 0 <= t < POINTERS_PER_BLOCK ensures DecodePointers(EncodePointers(e))[t] == e[t] {
      EncodeEntry(e, t);
      Pow256Of8();
      LittleEndianRoundTrip(e[t], 8);
    }
  }

  /** Every block read as a pointer block holds 64-bit entries, and encoding
      them gives the block back. */
  lemma DecodePointersRoundTrip(b: seq<byte>)
    requires |b| == BLOCK_SIZE
    ensures PointerBlock(DecodePointers(b))
    ensures EncodePointers(DecodePointers(b)) == b
  {
    var e := DecodePointers(b);
    forall t | 0 <= t < POINTERS_PER_BLOCK ensures e[t] < U64_LIMIT && LittleEndian(e[t], 8) == b[8 * t .. 8 * t + 8] {
      FromLittleEndianBound(b[8 * t .. 8 * t + 8]);
      Pow256Of8();
      FromLittleEndianRoundTrip(b[8 * t .. 8 * t + 8]);
    }
    forall a | 0 <= a < BLOCK_SIZE ensures EncodePointers(e)[a] == b[a] {
      var t := a / 8;
      assert LittleEndian(e[t], 8)[a % 8] == b[8 * t .. 8 * t + 8][a % 8];
    }
  }

  /// Byte offsets inside an inode record: the used flag is the low bit of the
  /// 16-bit flags word at offset 6; size and pointer block are the 64-bit
  /// fields at offsets 8 and 24.
  const USED_OFFSET: nat := 6
  const SIZE_OFFSET: nat := 8
  const HEAD_OFFSET: nat := 24

  /** The inode in record slot `slot` of an inode block. */
  function InodeAt(b: seq<byte>, slot: nat): Inode
    requires |b| == BLOCK_SIZE && slot < INODES_PER_BLOCK
  {
    var base := slot * 32;
    Inode(b[base + USED_OFFSET] & 1 != 0,
          FromLittleEndian(b[base + SIZE_OFFSET .. base + SIZE_OFFSET + 8]),
          FromLittleEndian(b[base + HEAD_OFFSET .. base + HEAD_OFFSET + 8]))
  }

  /** The inode block after storing ino's used flag, size and pointer block in
      slot `slot`; every other byte (the other fields, the other records) is kept. */
  function PutInode(b: seq<byte>, slot: nat, ino: Inode): (b': seq<byte>)
    requires |b| == BLOCK_SIZE && slot < INODES_PER_BLOCK
    ensures |b'| == BLOCK_SIZE
  {
    var base := slot * 32;
    seq(BLOCK_SIZE, a requires 0 <= a < BLOCK_SIZE =>
      if a == base + USED_OFFSET then (b[a] & 0xFE) | (if ino.used then 1 else 0)
      else if base + SIZE_OFFSET <= a < base + SIZE_OFFSET + 8 then LittleEndian(ino.size, 8)[a - base - SIZE_OFFSET]
      else if base + HEAD_OFFSET <= a < base + HEAD_OFFSET + 8 then LittleEndian(ino.head, 8)[a - base - HEAD_OFFSET]
      else b[a])
  }

  /** Reading back a stored inode gives it back. */
  lemma InodeRoundTrip(b: seq<byte>, slot: nat, ino: Inode)
    requires |b| == BLOCK_SIZE && slot < INODES_PER_BLOCK && Storable(ino)
    ensures InodeAt(PutInode(b, slot, ino), slot) == ino
  {
    var b' := PutInode(b, slot, ino);
    var base := slot * 32;
    assert b'[base + SIZE_OFFSET .. base + SIZE_OFFSET + 8] == LittleEndian(ino.size, 8);
    assert b'[base + HEAD_OFFSET .. base + HEAD_OFFSET + 8] == LittleEndian(ino.head, 8);
    Pow256Of8();
    LittleEndianRoundTrip(ino.size, 8);
    LittleEndianRoundTrip(ino.head, 8);
  }

  /** Every inode read from a block has a size and a pointer block that fit
      in 64 bits. */
  lemma InodeAtStorable(b: seq<byte>, slot: nat, size: nat)
    requires |b| == BLOCK_SIZE && slot < INODES_PER_BLOCK && size < U64_LIMIT
    ensures Storable(InodeAt(b, slot).(size := size))
  {
    var base := slot * 32;
    FromLittleEndianBound(b[base + HEAD_OFFSET .. base + HEAD_OFFSET + 8]);
    Pow256Of8();
  }

  /** Storing an inode leaves every byte outside its three fields unchanged. */
  lemma PutInodeKeeps(b: seq<byte>, slot: nat, ino: Inode, a: nat)
    requires |b| == BLOCK_SIZE && slot < INODES_PER_BLOCK && a < BLOCK_SIZE
    requires var base := slot * 32;
             a != base + USED_OFFSET && !(base + SIZE_OFFSET <= a < base + SIZE_OFFSET + 8) &&
             !(base + HEAD_OFFSET <= a < base + HEAD_OFFSET + 8)
    ensures PutInode(b, slot, ino)[a] == b[a]
  {
  }

  /** Storing an inode leaves the other inodes of the block unchanged. */
  lemma PutInodeOthers(b: seq<byte>, slot: nat, ino: Inode, other: nat)
    requires |b| == BLOCK_SIZE && slot < INODES_PER_BLOCK && other < INODES_PER_BLOCK && other != slot
    ensures InodeAt(PutInode(b, slot, ino), other) == InodeAt(b, other)
  {
    var b' := PutInode(b, slot, ino);
    var base := other * 32;
    assert slot * 32 + INODE_SIZE <= base || base + INODE_SIZE <= slot * 32;
    assert b'[base + SIZE_OFFSET .. base + SIZE_OFFSET + 8] == b[base + SIZE_OFFSET .. base + SIZE_OFFSET + 8];
    assert b'[base + HEAD_OFFSET .. base + HEAD_OFFSET + 8] == b[base + HEAD_OFFSET .. base + HEAD_OFFSET + 8];
  }

  /** A zeroed block holds unused inodes of size 0. */
  lemma ZeroInode(slot: nat)
    requires slot < INODES_PER_BLOCK
    ensures InodeAt(ZeroBlock(), slot) == Inode(false, 0, 0)
  {
    var base := slot * 32;
    var z := ZeroBlock();
    assert z[base + SIZE_OFFSET .. base + SIZE_OFFSET + 8] == LittleEndian(0, 8);
    assert z[base + HEAD_OFFSET .. base + HEAD_OFFSET + 8] == LittleEndian(0, 8);
    LittleEndianRoundTrip(0, 8);
  }
}

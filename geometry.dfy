/** Filesystem geometry and address arithmetic: `SuperBlock::new`,
    `BlockGroupDescriptor`, `BlockGroupNumber` and the offset arithmetic of
    `InodeNumber` in src/main.rs.

    The device is a byte sequence.  Offsets are unbounded integers: the u64
    products of the original are not checked for overflow here.
 */
module Geometry {
  import opened Fallible
  import opened Reader

  /** The superblock always starts 1024 bytes into the device. */
  const SUPER_BLOCK_OFFSET: nat := 1024
  /** Every block group descriptor takes 64 bytes. */
  const DESCRIPTOR_SIZE: nat := 64

  datatype SuperBlock = SuperBlock(
    magic: nat,
    blockSize: nat,
    blocksPerGroup: nat,
    inodesPerGroup: nat,
    inodeSize: nat)

  /** 2^n. */
  function Pow2(n: nat): (r: nat)
    ensures r >= 1
  {
    if n == 0 then 1 else 2 * Pow2(n - 1)
  }

  lemma {:induction false} Pow2Add(a: nat, b: nat)
    ensures Pow2(a + b) == Pow2(a) * Pow2(b)
  {
    if b > 0 {
      Pow2Add(a, b - 1);
    }
  }

  lemma {:induction false} Pow2Monotone(a: nat, b: nat)
    requires a <= b
    ensures Pow2(a) <= Pow2(b)
  {
    if a < b {
      Pow2Monotone(a, b - 1);
    }
  }

  /** `SuperBlock::new`: the fields are read through the view that starts at
      device byte 1024.  The block size is `2^(10 + log)`; an exponent that
      does not fit in a u64 power is an error.  The magic is recorded but not
      checked. */
  function SuperBlockNew(dev: seq<uint8>): (r: Result<SuperBlock>)
  {
    var s := Window(dev, Slice(SUPER_BLOCK_OFFSET, None));
    var magic :- U16(s, 0x38);
    // The fields below the magic's end (0x3A) are in range once it is read.
    var log := U32(s, 0x18).value;
    if 10 + log >= 64 then Err(BlockSizeOverflow(log))
    else
      var bpg := U32(s, 0x20).value;
      var ipg := U32(s, 0x28).value;
      var inodeSize :- U16(s, 0x58);
      Ok(SuperBlock(magic, Pow2(10 + log), bpg, ipg, inodeSize))
  }

  lemma Pow2Values()
    ensures Pow2(10) == 1024 && Pow2(64) == TWO_TO_64
  {
    assert Pow2(8) == 256;
    assert Pow2(10) == 1024;
    Pow2Add(8, 8);
    Pow2Add(16, 16);
    Pow2Add(32, 32);
  }

  /** A block size `2^(10 + log)` with `10 + log < 64` is 1024 times
      `2^log` and below 2^64. */
  lemma BlockSizeBounds(log: nat)
    requires 10 + log < 64
    ensures Pow2(10 + log) == 1024 * Pow2(log) && Pow2(10 + log) < TWO_TO_64
  {
    Pow2Values();
    Pow2Add(10, log);
    Pow2Add(10 + log, 64 - (10 + log));
    Pow2Monotone(1, 64 - (10 + log));
  }

  /** The superblock decodes exactly when the device reaches its last field
      (the inode size, 0x58 + 2 bytes past byte 1024) and the block-size
      exponent is small enough. */
  lemma SuperBlockDecodes(dev: seq<uint8>)
    ensures SuperBlockNew(dev).Ok? <==>
              |dev| >= SUPER_BLOCK_OFFSET + 0x5A && U32(dev, SUPER_BLOCK_OFFSET + 0x18).value <= 53
  {
    var sl := Slice(SUPER_BLOCK_OFFSET, None);
    ReadThroughWindow(dev, sl, 0x18, 4);
    ReadThroughWindow(dev, sl, 0x58, 2);
  }

  /** Each decoded field is the little-endian value at its absolute device
      offset, and the block size is `2^(10 + log)`: a multiple of 1024 below
      2^64. */
  lemma SuperBlockFields(dev: seq<uint8>)
    requires SuperBlockNew(dev).Ok?
    ensures var sb := SuperBlockNew(dev).value;
            var log := U32(dev, SUPER_BLOCK_OFFSET + 0x18).value;
            && sb.magic == U16(dev, SUPER_BLOCK_OFFSET + 0x38).value
            && sb.blockSize == Pow2(10 + log)
            && sb.blocksPerGroup == U32(dev, SUPER_BLOCK_OFFSET + 0x20).value
            && sb.inodesPerGroup == U32(dev, SUPER_BLOCK_OFFSET + 0x28).value
            && sb.inodeSize == U16(dev, SUPER_BLOCK_OFFSET + 0x58).value && sb.inodeSize < TWO_TO_16
            && sb.blockSize == 1024 * Pow2(log) && sb.blockSize < TWO_TO_64
  {
    var sl := Slice(SUPER_BLOCK_OFFSET, None);
    ReadThroughWindow(dev, sl, 0x38, 2);
    ReadThroughWindow(dev, sl, 0x18, 4);
    ReadThroughWindow(dev, sl, 0x20, 4);
    ReadThroughWindow(dev, sl, 0x28, 4);
    ReadThroughWindow(dev, sl, 0x58, 2);
    BlockSizeBounds(U32(dev, SUPER_BLOCK_OFFSET + 0x18).value);
  }

  /** `BlockGroupDescriptor`: only the inode table pointer is decoded. */
  datatype BlockGroupDescriptor = BlockGroupDescriptor(inodeTable: nat)

  /** `BlockGroupDescriptor::new`: the inode table block is split between a
      low 32-bit half at 0x8 and a high 32-bit half at 0x28. */
  function BlockGroupDescriptorNew(s: seq<uint8>): (r: Result<BlockGroupDescriptor>)
    ensures r.Ok? <==> |s| >= 0x2C
    ensures r.Ok? ==> (r.value.inodeTable % TWO_TO_32 == U32(s, 0x8).value
                       && r.value.inodeTable / TWO_TO_32 == U32(s, 0x28).value)
  {
    var table :- U64LoHi(s, 0x8, 0x28);
    Ok(BlockGroupDescriptor(table))
  }

  /** `InodeNumber::block_group_number`: the group that holds 1-based inode `n`. */
  function BlockGroupNumber(n: nat, sb: SuperBlock): nat
    requires n >= 1 && sb.inodesPerGroup > 0
  {
    (n - 1) / sb.inodesPerGroup
  }

  /** The position of inode `n` inside its group's inode table. */
  function InodeIndex(n: nat, sb: SuperBlock): nat
    requires n >= 1 && sb.inodesPerGroup > 0
  {
    (n - 1) % sb.inodesPerGroup
  }

  /** The 1-based inode number of the `index`-th inode of group `group`. */
  function InodeNumberOf(group: nat, index: nat, sb: SuperBlock): nat
  {
    group * sb.inodesPerGroup + index + 1
  }

  /** Group and index together identify the inode: the index is below the
      group size, and reassembling them gives back the inode number. */
  lemma InodeNumberSplit(n: nat, sb: SuperBlock)
    requires n >= 1 && sb.inodesPerGroup > 0
    ensures InodeIndex(n, sb) < sb.inodesPerGroup
    ensures InodeNumberOf(BlockGroupNumber(n, sb), InodeIndex(n, sb), sb) == n
  {
  }

  /** Conversely, every (group, index) pair with the index below the group
      size is the split of exactly one inode number. */
  lemma {:induction false} InodeNumberJoin(group: nat, index: nat, sb: SuperBlock)
    requires sb.inodesPerGroup > 0 && index < sb.inodesPerGroup
    ensures InodeNumberOf(group, index, sb) >= 1
    ensures BlockGroupNumber(InodeNumberOf(group, index, sb), sb) == group
    ensures InodeIndex(InodeNumberOf(group, index, sb), sb) == index
  {
    var ipg := sb.inodesPerGroup;
    var m := group * ipg + index;
    DivModUnique(m, ipg, group, index);
  }

  lemma MulMonotone(a: nat, b: nat, d: nat)
    requires a <= b
    ensures a * d <= b * d
  {
    var k := b - a;
    assert b * d == a * d + k * d;
  }

  lemma DivModUnique(m: nat, d: nat, q: nat, r: nat)
    requires d > 0 && r < d && m == q * d + r
    ensures m / d == q && m % d == r
  {
    var q', r' := m / d, m % d;
    assert m == q' * d + r';
    if q' < q {
      MulMonotone(q' + 1, q, d);
      assert false;
    } else if q' > q {
      MulMonotone(q + 1, q', d);
      assert false;
    }
  }

  /** `BlockGroupNumber::block_group_descriptor_slice`: descriptors are packed
      at a 64-byte stride right after the first block. */
  function DescriptorOffset(group: nat, sb: SuperBlock): nat
  {
    sb.blockSize + group * DESCRIPTOR_SIZE
  }

  /** Descriptors of distinct groups occupy disjoint 64-byte records, and all
      of them lie past the first block. */
  lemma DescriptorsDisjoint(g1: nat, g2: nat, sb: SuperBlock)
    requires g1 < g2
    ensures sb.blockSize <= DescriptorOffset(g1, sb)
    ensures DescriptorOffset(g1, sb) + DESCRIPTOR_SIZE <= DescriptorOffset(g2, sb)
  {
  }

  /** `BlockGroupNumber::block_group_descriptor`: decode group `group`'s
      descriptor from the device. */
  function GroupDescriptor(group: nat, sb: SuperBlock, dev: seq<uint8>): (r: Result<BlockGroupDescriptor>)
    ensures r.Ok? <==> |dev| >= DescriptorOffset(group, sb) + 0x2C
    ensures r.Ok? ==> var off := DescriptorOffset(group, sb);
                      r.value.inodeTable == U32(dev, off + 0x8).value + TWO_TO_32 * U32(dev, off + 0x28).value
  {
    var sl := Slice(DescriptorOffset(group, sb), None);
    ReadThroughWindow(dev, sl, 0x8, 4);
    ReadThroughWindow(dev, sl, 0x28, 4);
    BlockGroupDescriptorNew(Window(dev, sl))
  }

  /** The byte offset of block `block` (or the byte length of `block` blocks). */
  function BlockOffset(block: nat, sb: SuperBlock): nat
  {
    block * sb.blockSize
  }

  /** The byte offset of inode `index` in an inode table that starts at block `table`. */
  function InodeOffset(table: nat, index: nat, sb: SuperBlock): nat
  {
    BlockOffset(table, sb) + index * sb.inodeSize
  }

  /** `InodeNumber::inode_slice`: the view of inode `n`, exactly `inode_size`
      bytes long, at its index within its group's inode table. */
  function InodeSlice(n: nat, sb: SuperBlock, dev: seq<uint8>): (r: Result<Slice>)
    requires n >= 1 && sb.inodesPerGroup > 0
    ensures r.Ok? <==> GroupDescriptor(BlockGroupNumber(n, sb), sb, dev).Ok?
    ensures r.Ok? ==>
              var table := GroupDescriptor(BlockGroupNumber(n, sb), sb, dev).value.inodeTable;
              r.value.offset == table * sb.blockSize + InodeIndex(n, sb) * sb.inodeSize
              && r.value.size == Some(sb.inodeSize)
  {
    var bgd :- GroupDescriptor(BlockGroupNumber(n, sb), sb, dev);
    Ok(Slice(InodeOffset(bgd.inodeTable, InodeIndex(n, sb), sb), Some(sb.inodeSize)))
  }

  /** Inodes at different indexes of one table occupy disjoint byte ranges. */
  lemma InodeOffsetsDisjoint(table: nat, i1: nat, i2: nat, sb: SuperBlock)
    requires i1 < i2
    ensures InodeOffset(table, i1, sb) + sb.inodeSize <= InodeOffset(table, i2, sb)
  {
    MulMonotone(i1 + 1, i2, sb.inodeSize);
  }

  /** Two different inodes of the same group get disjoint views. */
  lemma InodeSlicesDisjoint(n1: nat, n2: nat, sb: SuperBlock, dev: seq<uint8>)
    requires 1 <= n1 < n2 && sb.inodesPerGroup > 0
    requires BlockGroupNumber(n1, sb) == BlockGroupNumber(n2, sb)
    requires InodeSlice(n1, sb, dev).Ok?
    ensures InodeSlice(n2, sb, dev).Ok?
    ensures InodeSlice(n1, sb, dev).value.offset + sb.inodeSize <= InodeSlice(n2, sb, dev).value.offset
  {
    var table := GroupDescriptor(BlockGroupNumber(n1, sb), sb, dev).value.inodeTable;
    InodeNumberSplit(n1, sb);
    InodeNumberSplit(n2, sb);
    InodeOffsetsDisjoint(table, InodeIndex(n1, sb), InodeIndex(n2, sb), sb);
  }
}

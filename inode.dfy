/** Inodes and their single-extent data mapping: `Inode::new`,
    `Inode::file_type`, `FileType`, `ExtentHeader::new`, `Extent::new`,
    `Inode::data` and `InodeNumber::inode` in src/main.rs.
 */
module Inodes {
  import opened Fallible
  import opened Reader
  import opened Geometry

  /** The file-type codes of the top four bits of an inode's mode. */
  datatype FileType =
    | Fifo
    | CharacterDevice
    | Directory
    | BlockDevice
    | Regular
    | SymbolicLink
    | Socket

  /** The discriminant `FileType` is declared with (`#[repr(u16)]`). */
  function Code(t: FileType): nat
  {
    match t
    case Fifo => 0x1000
    case CharacterDevice => 0x2000
    case Directory => 0x4000
    case BlockDevice => 0x6000
    case Regular => 0x8000
    case SymbolicLink => 0xA000
    case Socket => 0xC000
  }

  /** `FileType::try_from` (derived by `TryFromPrimitive`): the variant whose
      discriminant is `code`, if there is one. */
  function FileTypeFromCode(code: nat): (r: Result<FileType>)
    ensures r.Ok? ==> Code(r.value) == code
    ensures r.Err? ==> r.error == UnknownFileType(code) && forall t: FileType :: Code(t) != code
  {
    if code == 0x1000 then Ok(Fifo)
    else if code == 0x2000 then Ok(CharacterDevice)
    else if code == 0x4000 then Ok(Directory)
    else if code == 0x6000 then Ok(BlockDevice)
    else if code == 0x8000 then Ok(Regular)
    else if code == 0xA000 then Ok(SymbolicLink)
    else if code == 0xC000 then Ok(Socket)
    else Err(UnknownFileType(code))
  }

  /** Every variant converts back from its own discriminant, so no two
      variants share one. */
  lemma FileTypeRoundTrip(t: FileType)
    ensures FileTypeFromCode(Code(t)) == Ok(t)
  {
  }

  /** `mode & 0xF000` for a 16-bit mode: the mode with its low twelve
      (permission) bits cleared, stated arithmetically. */
  function TypeBits(mode: nat): (r: nat)
    requires mode < TWO_TO_16
    ensures r <= mode && r % 0x1000 == 0 && mode - r < 0x1000
  {
    mode - mode % 0x1000
  }

  /** The permission bits do not affect the type bits: a mode made of a
      type code and any twelve low bits has that code as its type bits. */
  lemma TypeBitsOfMode(code: nat, perm: nat)
    requires code + perm < TWO_TO_16 && code % 0x1000 == 0 && perm < 0x1000
    ensures TypeBits(code + perm) == code
  {
    assert (code + perm) % 0x1000 == perm;
  }

  /** `Inode`: the mode, the size and the 60 raw bytes of `i_block`. */
  datatype Inode = Inode(mode: nat, size: nat, block: seq<uint8>)

  /** Offset and length of `i_block`, the extent-tree root, inside an inode. */
  const BLOCK_OFFSET: nat := 0x28
  const BLOCK_LEN: nat := 60

  /** `Inode::new`: mode at 0x0, size split between 0x4 (low half) and 0x6C
      (high half), and `i_block` at 0x28, all read through the inode's view. */
  function InodeNew(s: seq<uint8>): (r: Result<Inode>)
    ensures r.Ok? <==> |s| >= 0x70
    ensures r.Ok? ==> && r.value.mode == U16(s, 0x0).value
                      && r.value.size % TWO_TO_32 == U32(s, 0x4).value
                      && r.value.size / TWO_TO_32 == U32(s, 0x6C).value
                      && r.value.block == s[BLOCK_OFFSET..BLOCK_OFFSET + BLOCK_LEN]
  {
    var mode :- U16(s, 0x0);
    var size :- U64LoHi(s, 0x4, 0x6C);
    // `i_block` ends at 0x64, before the high half of the size at 0x6C,
    // so it is always in range once the size has been read.
    Ok(Inode(mode, size, Vec(s, BLOCK_OFFSET, BLOCK_LEN).value))
  }

  /** `Inode::file_type`: the type named by the mode's type bits; an
      unknown code fails where the original `unwrap`s. */
  function FileTypeOf(inode: Inode): (r: Result<FileType>)
    requires inode.mode < TWO_TO_16
    ensures r.Ok? ==> Code(r.value) == TypeBits(inode.mode)
    ensures r.Err? <==> forall t: FileType :: Code(t) != TypeBits(inode.mode)
  {
    FileTypeFromCode(TypeBits(inode.mode))
  }

  /** An inode whose mode is a file type's code plus permission bits has
      that file type. */
  lemma FileTypeOfMode(t: FileType, perm: nat, size: nat, block: seq<uint8>)
    requires perm < 0x1000
    ensures FileTypeOf(Inode(Code(t) + perm, size, block)) == Ok(t)
  {
    TypeBitsOfMode(Code(t), perm);
    FileTypeRoundTrip(t);
  }

  /** The header magic every extent-tree node starts with. */
  const EXTENT_MAGIC: nat := 0xF30A

  /** `ExtentHeader`: the number of entries and the tree depth. */
  datatype ExtentHeader = ExtentHeader(entries: nat, depth: nat)

  /** `ExtentHeader::new`: the magic at 0x0 must be 0xF30A (the original
      asserts it); the entry count is at 0x2 and the depth at 0x6. */
  function ExtentHeaderNew(s: seq<uint8>): (r: Result<ExtentHeader>)
    ensures r.Ok? <==> |s| >= 8 && U16(s, 0).value == EXTENT_MAGIC
    ensures r.Ok? ==> r.value.entries == U16(s, 0x2).value && r.value.depth == U16(s, 0x6).value
    ensures |s| >= 2 && U16(s, 0).value != EXTENT_MAGIC ==> r == Err(BadExtentMagic(U16(s, 0).value))
  {
    var magic :- U16(s, 0x0);
    if magic != EXTENT_MAGIC then Err(BadExtentMagic(magic))
    else
      var entries :- U16(s, 0x2);
      var depth :- U16(s, 0x6);
      Ok(ExtentHeader(entries, depth))
  }

  /** `Extent`: a run of `len` blocks starting at physical block `start`. */
  datatype Extent = Extent(len: nat, start: nat)

  /** `Extent::new`: the length at 0x4 and the start block split into a high
      16-bit half at 0x6 and a low 32-bit half at 0x8. */
  function ExtentNew(s: seq<uint8>): (r: Result<Extent>)
    ensures r.Ok? <==> |s| >= 12
    ensures r.Ok? ==> && r.value.len == U16(s, 0x4).value
                      && r.value.start < TWO_TO_48
                      && r.value.start % TWO_TO_32 == U32(s, 0x8).value
                      && r.value.start / TWO_TO_32 == U16(s, 0x6).value
  {
    var len :- U16(s, 0x4);
    var hi :- U16(s, 0x6);
    var lo :- U32(s, 0x8);
    Ok(Extent(len, hi * TWO_TO_32 + lo))
  }

  /** The 12 on-disk bytes of a leaf extent (`ee_block` left zero). */
  function ExtentBytes(e: Extent): (bs: seq<uint8>)
    requires e.len < TWO_TO_16 && e.start < TWO_TO_48
    ensures |bs| == 12
  {
    ToLittleEndian(0, 4) + ToLittleEndian(e.len, 2)
      + ToLittleEndian(e.start / TWO_TO_32, 2) + ToLittleEndian(e.start % TWO_TO_32, 4)
  }

  /** Decoding the bytes of an extent gives the extent back: every 48-bit
      start block and 16-bit length survives the split layout. */
  lemma ExtentRoundTrip(e: Extent)
    requires e.len < TWO_TO_16 && e.start < TWO_TO_48
    ensures ExtentNew(ExtentBytes(e)) == Ok(e)
  {
    var bs := ExtentBytes(e);
    var block := ToLittleEndian(0, 4);
    var len := ToLittleEndian(e.len, 2);
    var hi := ToLittleEndian(e.start / TWO_TO_32, 2);
    var lo := ToLittleEndian(e.start % TWO_TO_32, 4);
    assert bs == block + len + hi + lo;
    forall i | 0 <= i < 2 ensures bs[4..6][i] == len[i] {
      assert bs[4 + i] == len[i];
    }
    forall i | 0 <= i < 2 ensures bs[6..8][i] == hi[i] {
      assert bs[6 + i] == hi[i];
    }
    forall i | 0 <= i < 4 ensures bs[8..12][i] == lo[i] {
      assert bs[8 + i] == lo[i];
    }
    assert bs[4..6] == len;
    assert bs[6..8] == hi;
    assert bs[8..12] == lo;
    ReadEncoded(bs, 4, 2, e.len);
    ReadEncoded(bs, 6, 2, e.start / TWO_TO_32);
    ReadEncoded(bs, 8, 4, e.start % TWO_TO_32);
  }

  /** `Inode::data`: the header is decoded from `i_block[0..12]` and the
      single extent from `i_block[12..24]`; the extent must be one block long
      (the original asserts it).  The depth and entry count are decoded but
      not checked.  The result is the device view
      `[start * block_size, (start + len) * block_size)`. */
  function Data(inode: Inode, sb: SuperBlock): (r: Result<Slice>)
  {
    var header :- ExtentHeaderNew(Window(inode.block, Slice(0, Some(12))));
    var ext :- ExtentNew(Window(inode.block, Slice(12, Some(12))));
    if ext.len != 1 then Err(ExtentLengthNotOne(ext.len))
    else Ok(Slice(BlockOffset(ext.start, sb), Some(BlockOffset(ext.len, sb))))
  }

  /** For an inode as `InodeNew` produces it (60 bytes of `i_block`), the data
      view exists exactly when the header magic is 0xF30A and the extent
      length is 1; a wrong magic is reported as such. */
  lemma DataDecodes(inode: Inode, sb: SuperBlock)
    requires |inode.block| == BLOCK_LEN
    ensures Data(inode, sb).Ok? <==>
              U16(inode.block, 0).value == EXTENT_MAGIC && U16(inode.block, 12 + 0x4).value == 1
    ensures U16(inode.block, 0).value != EXTENT_MAGIC ==>
              Data(inode, sb) == Err(BadExtentMagic(U16(inode.block, 0).value))
  {
    ReadThroughWindow(inode.block, Slice(0, Some(12)), 0x0, 2);
    ReadThroughWindow(inode.block, Slice(12, Some(12)), 0x4, 2);
  }

  /** The data view is then the one block the extent points at: it starts
      at the 48-bit start block split 16/32 at `i_block[18..24]`, times the
      block size, and is one block long. */
  lemma DataWindow(inode: Inode, sb: SuperBlock)
    requires |inode.block| == BLOCK_LEN && Data(inode, sb).Ok?
    ensures var start := U16(inode.block, 12 + 0x6).value * TWO_TO_32 + U32(inode.block, 12 + 0x8).value;
            && start < TWO_TO_48
            && Data(inode, sb).value == Slice(BlockOffset(start, sb), Some(sb.blockSize))
  {
    var es := Slice(12, Some(12));
    ReadThroughWindow(inode.block, es, 0x4, 2);
    ReadThroughWindow(inode.block, es, 0x6, 2);
    ReadThroughWindow(inode.block, es, 0x8, 4);
  }

  /** When the device holds the whole block, the data view reads exactly the
      device bytes of that block. */
  lemma DataBytes(inode: Inode, sb: SuperBlock, dev: seq<uint8>)
    requires Data(inode, sb).Ok?
    requires Data(inode, sb).value.offset + sb.blockSize <= |dev|
    ensures var d := Data(inode, sb).value;
            Window(dev, d) == dev[d.offset..d.offset + sb.blockSize]
  {
    WindowContents(dev, Data(inode, sb).value);
  }

  /** `InodeNumber::inode`: locate inode `n` and decode it. */
  function InodeOf(n: nat, sb: SuperBlock, dev: seq<uint8>): (r: Result<Inode>)
    requires n >= 1 && sb.inodesPerGroup > 0
  {
    var slice :- InodeSlice(n, sb, dev);
    InodeNew(Window(dev, slice))
  }

  /** Inode `n` decodes exactly when its group descriptor decodes and its
      record, at least 0x70 bytes of it, is on the device and inside the
      inode size. */
  lemma InodeOfDecodes(n: nat, sb: SuperBlock, dev: seq<uint8>)
    requires n >= 1 && sb.inodesPerGroup > 0
    ensures InodeOf(n, sb, dev).Ok? <==>
              InodeSlice(n, sb, dev).Ok? && 0x70 <= sb.inodeSize
              && InodeSlice(n, sb, dev).value.offset + 0x70 <= |dev|
  {
    if InodeSlice(n, sb, dev).Ok? {
      var sl := InodeSlice(n, sb, dev).value;
      WindowContents(dev, sl);
      assert Fits(|dev|, sl, 0x70) <==> 0x70 <= |Window(dev, sl)|;
    }
  }

  /** A decoded inode's mode is the 16-bit value at the inode's byte offset
      in its group's inode table, and its `i_block` is the 60 device bytes
      0x28 past that offset. */
  lemma InodeOfFields(n: nat, sb: SuperBlock, dev: seq<uint8>)
    requires n >= 1 && sb.inodesPerGroup > 0
    requires InodeOf(n, sb, dev).Ok?
    ensures var table := GroupDescriptor(BlockGroupNumber(n, sb), sb, dev).value.inodeTable;
            var offset := table * sb.blockSize + InodeIndex(n, sb) * sb.inodeSize;
            && InodeOf(n, sb, dev).value.mode == U16(dev, offset).value
            && InodeOf(n, sb, dev).value.block == dev[offset + BLOCK_OFFSET..offset + BLOCK_OFFSET + BLOCK_LEN]
  {
    var sl := InodeSlice(n, sb, dev).value;
    var w := Window(dev, sl);
    WindowContents(dev, sl);
    InodeOfDecodes(n, sb, dev);
    ReadThroughWindow(dev, sl, 0, 2);
    assert w[BLOCK_OFFSET..BLOCK_OFFSET + BLOCK_LEN] == dev[sl.offset + BLOCK_OFFSET..sl.offset + BLOCK_OFFSET + BLOCK_LEN];
  }
}

# ext4 path lookup: a verified model of the address-translation chain

This project models the core of a small ext4 reader. The reader finds a
file by path by reading a raw block device directly, without mounting it.
Every step of that chain is a deterministic function of the device bytes:

1. **Field decoding** (`Reader`): little-endian `u8`, `u16` and `u32` reads,
   a byte-run read, and a 64-bit value made of two 32-bit halves. Every read
   goes through a bounded view of the device (a positioned_io `Slice`).
2. **Superblock geometry** (`SuperBlock::new`): the superblock starts at
   device byte 1024. The block size is `2^(10 + log)`.
3. **Group and inode addressing** (`InodeNumber`, `BlockGroupNumber`,
   `BlockGroupDescriptor`): a 1-based inode number is split into a group and
   an index within the group. The group's descriptor sits at
   `block_size + group * 64` and gives the inode table's block.
4. **Inode decoding** (`Inode::new`, `Inode::file_type`, `FileType`).
5. **Extent resolution** (`Inode::data`, `ExtentHeader::new`, `Extent::new`):
   the single leaf extent of the inode gives the one-block data view.
6. **Directory iteration and lookup** (`DirectoryEntry::new`,
   `Inode::dir_entries`, `Inode::find_entry_name`): the `ext4_dir_entry_2`
   records are walked by `rec_len`, and the first entry with a given name wins.

The device is a `seq<uint8>` and a view is `Reader.Slice(offset, size)`.
`Reader.Window` gives the bytes a read through a view can reach. Decoders are
functions returning `Fallible.Result`. The loop of `dir_entries` is a method
(`Directory.WalkEntries`) proved against the recursive walk
`Directory.Walk`.

The original aborts in five places. Each of them is a distinct error result
here, so a decode the original aborts is a decode that fails:

- `BadExtentMagic`: the magic `assert_eq!` in `ExtentHeader::new`
  (src/main.rs:235).
- `ExtentLengthNotOne`: the length `assert_eq!` in `Inode::data`
  (src/main.rs:170).
- `UnknownFileType`: the `unwrap` in `Inode::file_type` (src/main.rs:157).
- `ZeroRecordLength`: the endless loop of `dir_entries` on a record with
  `rec_len == 0` (src/main.rs:184-191).
- `BlockSizeOverflow`: the overflow panic of `2_u64.pow` when
  `10 + log >= 64` (src/main.rs:62).

Two other panics are preconditions instead: `n >= 1` and
`inodes_per_group > 0`. Without them `(n - 1)` underflows and `/ ipg` divides
by zero (src/main.rs:117, 126).

Where the code is laxer than the ext4 on-disk format, the model follows the code:

- The superblock magic (expected 0xEF53) is read but never checked.
- The extent header's depth and entry count are decoded but not checked,
  because the asserts at src/main.rs:165-166 are commented out.
- A directory whose records do not cover the view exactly is not an error:
  a last record that runs past the view's size is accepted.
  The walk stops at the first cursor at or past the size, so the record
  lengths may sum to more than the size (`Directory.WalkReachesEnd` states
  `>=`, not `==`).

`Slice::size()` on the data view is taken to be the view's declared size,
`len * block_size`. `dir_entries` uses that size as its bound.

## Model

| member | source | states |
|---|---|---|
| Reader.DecodeEncode | src/main.rs:25-33 | decoding the little-endian encoding of any `x < 256^width` gives `x` back |
| Reader.EncodeDecode | src/main.rs:25-33 | re-encoding the decoded value of any byte run at its own width gives the same bytes |
| Reader.WindowContents | src/main.rs:60 | a view holds exactly the longest run of bytes from its offset that fits both the source and the declared size; byte `i` of the view is source byte `offset + i` |
| Reader.ReadUint | src/main.rs:20-33 | a `width`-byte read succeeds iff it lies inside the bytes it reads; its value is below `256^width`; otherwise the error is `UnexpectedEof(offset, width)` |
| Reader.ReadEncoded | src/main.rs:25-33 | a field holding the encoding of `x` reads back as `x` |
| Reader.ReadThroughWindow | src/main.rs:60 | a read at position `p` of a view is the read at `offset + p` of the source when the field fits the view, and an end-of-view error otherwise |
| Reader.U8 | src/main.rs:20-23 | `u8` succeeds iff the offset is in range, and then yields that byte; otherwise it fails with `UnexpectedEof` |
| Reader.U16 | src/main.rs:25-28 | `u16` succeeds iff two bytes fit, and yields a value below 2^16; otherwise it fails with `UnexpectedEof` |
| Reader.U16Bytes | src/main.rs:25-28 | `u16(off) == b[off] + 256 * b[off + 1]` |
| Reader.U32 | src/main.rs:30-33 | `u32` succeeds iff four bytes fit, and yields a value below 2^32; otherwise it fails with `UnexpectedEof` |
| Reader.U32Bytes | src/main.rs:30-33 | `u32(off)` weighs its four bytes by 1, 2^8, 2^16 and 2^24 |
| Reader.U64LoHi | src/main.rs:35-39 | succeeds iff both halves fit; the value is below 2^64, its remainder mod 2^32 is the low half and its quotient by 2^32 the high half; the error names the first half that does not fit |
| Reader.ShiftOrIsAdd | src/main.rs:38 | `(hi << 32) \| lo` equals `hi * 2^32 + lo` for 32-bit halves, so the arithmetic form is the original's bit form |
| Reader.Vec | src/main.rs:41-45 | succeeds iff the run is empty or fits; the result is exactly the `len` bytes from the offset; otherwise it fails with `UnexpectedEof(offset, len)` |
| Geometry.BlockSizeBounds | src/main.rs:62 | about the block size `SuperBlockNew` computes: for `10 + log < 64` the block size `2^(10 + log)` is `1024 * 2^log` and below 2^64 |
| Geometry.SuperBlockDecodes | src/main.rs:59-73 | `SuperBlockNew`: the superblock decodes iff the device reaches byte `1024 + 0x5A` and the exponent at `1024 + 0x18` is at most 53 |
| Geometry.SuperBlockFields | src/main.rs:59-73 | `SuperBlockNew`: magic, blocks per group, inodes per group and inode size are the values at device offsets 1024 + 0x38, 0x20, 0x28 and 0x58; the inode size is below 2^16; the block size is `2^(10 + log)`, a multiple of 1024 below 2^64 |
| Geometry.BlockGroupDescriptorNew | src/main.rs:85-90 | decodes iff the view holds 0x2C bytes; the inode table's low half is the u32 at 0x8 and its high half the u32 at 0x28 |
| Geometry.InodeNumberSplit | src/main.rs:116-126 | `BlockGroupNumber` and `InodeIndex`: the index `(n - 1) % ipg` is below `ipg`, and `group * ipg + index + 1 == n` |
| Geometry.InodeNumberJoin | src/main.rs:116-126 | `BlockGroupNumber` and `InodeIndex` are onto: every (group, index) pair with `index < ipg` is the split of exactly the inode `group * ipg + index + 1` |
| Geometry.DescriptorsDisjoint | src/main.rs:96-101 | `DescriptorOffset`: descriptors of distinct groups occupy disjoint 64-byte records, all past the first block |
| Geometry.GroupDescriptor | src/main.rs:103-110 | group `g`'s descriptor decodes iff the device reaches `block_size + g * 64 + 0x2C`; the inode table is `u32(off + 0x8) + 2^32 * u32(off + 0x28)` at that offset |
| Geometry.InodeSlice | src/main.rs:121-129 | the inode's view exists iff its group descriptor decodes; it starts at `inode_table * block_size + index * inode_size` and is exactly `inode_size` bytes long |
| Geometry.InodeOffsetsDisjoint | src/main.rs:125-127 | inodes at different indexes of one table occupy disjoint byte ranges |
| Geometry.InodeSlicesDisjoint | src/main.rs:121-129 | two different inodes of the same group get disjoint views |
| Inodes.FileTypeFromCode | src/main.rs:213-223 | a conversion that succeeds gives the variant whose discriminant is the code; one that fails does so only when no variant has that code, with `UnknownFileType(code)` |
| Inodes.FileTypeRoundTrip | src/main.rs:213-223 | every variant converts back from its own discriminant |
| Inodes.TypeBits | src/main.rs:157 | the type bits of a 16-bit mode are a multiple of 0x1000 that differs from the mode by less than 0x1000 |
| Inodes.TypeBitsOfMode | src/main.rs:157 | a type code plus any twelve permission bits has that code as its type bits |
| Inodes.InodeNew | src/main.rs:147-154 | decodes iff the view holds 0x70 bytes; the mode is the u16 at 0x0, the size's halves are the u32s at 0x4 and 0x6C, and `i_block` is exactly bytes 0x28 to 0x64 |
| Inodes.FileTypeOf | src/main.rs:156-158 | a file type found has the mode's type bits as its code; it fails exactly when no variant has that code |
| Inodes.FileTypeOfMode | src/main.rs:156-158 | an inode whose mode is a type's code plus permission bits has that file type |
| Inodes.ExtentHeaderNew | src/main.rs:231-242 | decodes iff the view holds 8 bytes and the magic is 0xF30A; entries and depth are the u16s at 0x2 and 0x6; a wrong magic is `BadExtentMagic(magic)` |
| Inodes.ExtentNew | src/main.rs:250-260 | decodes iff the view holds 12 bytes; the length is the u16 at 0x4; the start is below 2^48, with its low 32 bits at 0x8 and its high 16 bits at 0x6 |
| Inodes.ExtentRoundTrip | src/main.rs:250-260 | decoding the on-disk bytes of any extent with a 16-bit length and a 48-bit start gives the extent back |
| Inodes.DataDecodes | src/main.rs:160-176 | `Data`: for a 60-byte `i_block`, the data view exists iff the header magic is 0xF30A and the extent length is 1; a wrong magic is `BadExtentMagic` |
| Inodes.DataWindow | src/main.rs:160-176 | `Data`: the data view starts at the 48-bit start block times the block size and is one block long |
| Inodes.DataBytes | src/main.rs:173-175 | `Data`: when the device holds that block, the data view reads exactly the device bytes of the block |
| Inodes.InodeOfDecodes | src/main.rs:131-134 | `InodeOf`: inode `n` decodes iff its group descriptor decodes, `inode_size >= 0x70` and the device holds its first 0x70 bytes |
| Inodes.InodeOfFields | src/main.rs:131-134 | `InodeOf`: a decoded inode's mode is the u16 at its absolute device offset, and its `i_block` is the 60 device bytes 0x28 past that offset |
| Directory.DirectoryEntryNew | src/main.rs:270-280 | decodes iff the name length byte at 0x6 is present and the name fits; the inode is the u32 at 0x0, the record length the u16 at 0x4, and the name the `s[6]` bytes at 0x8 |
| Directory.Walk | src/main.rs:182-191 | a successful walk that starts below the size yields between 1 and `total - cursor` entries |
| Directory.WalkTail | src/main.rs:184-190 | one-step unfolding of `Walk`, used by the cursor lemmas: a successful walk starts with the record at the cursor, which has a non-zero length, and continues with the walk from the next cursor |
| Directory.WalkAtCursors | src/main.rs:182-191 | entry `i` has a non-zero length, is the record decoded at `cursor + len0 + ... + len(i-1)`, and that cursor is below the size |
| Directory.WalkReachesEnd | src/main.rs:184-187 | the record lengths of all entries reach the size: the walk stops only at or past it |
| Directory.CursorsIncrease | src/main.rs:188-189 | entry cursors strictly increase |
| Directory.EntriesLayout | src/main.rs:182-191 | `Entries` (the walk with `EntryAt`, i.e. `DirectoryEntry::new` of the view at the cursor), soundness half: on a directory's bytes, entry `i` is `DirectoryEntry::new` of the view at its cursor, every cursor is below the size, and the lengths sum to at least the size |
| Directory.WalkComplete | src/main.rs:182-191 | completeness: records that the decoder finds at consecutive cursors below the size, with non-zero lengths reaching the size, are exactly the walk's result |
| Directory.EntriesComplete | src/main.rs:182-191 | `Entries`, completeness half: a well-formed directory (entries `DirectoryEntry::new` decodes at consecutive cursors below the size, non-zero lengths reaching the size) is accepted with exactly those entries |
| Directory.WalkUnfold | src/main.rs:184-190 | one-step unfolding of `Walk`, used by the loop proof: below the size, the walk is the record at the cursor followed by the walk from the next cursor, or the decode error, or `ZeroRecordLength` |
| Directory.WalkPush | src/main.rs:188-190 | consuming a record with a non-zero length keeps the loop's invariant |
| Directory.WalkExits | src/main.rs:184-188 | each of the loop's exits yields the whole walk's result |
| Directory.WalkEntries | src/main.rs:182-192 | the loop's result is the walk from cursor 0; its invariant keeps the cursor equal to the sum of the record lengths pushed |
| Directory.DirEntries | src/main.rs:178-193 | `dir_entries` equals `DirEntriesOf`, which is the walk of the inode's data view up to its declared size, or the data view's error |
| Directory.FindName | src/main.rs:201-206 | `None` iff no entry has the name; otherwise the inode of the first entry, in on-disk order, with that name |
| Directory.FindEntryName | src/main.rs:195-207 | propagates the directory's decode error; otherwise returns the first-match lookup over its entries |

## Left out

- `main` (src/main.rs:282-327): it opens the device, hard-codes the path, prints and calls `expect`. This is I/O and glue.
- The `println!` calls in `Inode::data` and the debug formatting attributes: output only.
- The internals of positioned_io and byteorder. A view is modelled as offset and size arithmetic over a byte sequence.
- `String::from_utf8_lossy`: names are compared as byte sequences. Two names that differ only in invalid UTF-8 bytes compare equal in the original but not here.
- u64 overflow of the offset products (`inode_table * block_size`, `index * inode_size`, `start * block_size`, `offset += rec_len`): offsets are unbounded integers.
- Geometry.InodeSlice: stated without u64 wrap-around of the offset, for the reason above.
- Inodes.DataWindow: stated for the 60-byte `i_block` that `Inode::new` produces; other block lengths are not characterised.
- Inodes.TypeBits: `mode & 0xF000` is stated arithmetically as the mode with its low twelve bits cleared. Its equality with the bit mask on 16-bit values is not proved.
- Directory.WalkEntries: the loop takes the record decoder as a parameter. `Directory.DirEntries` passes the decoder that applies `DirectoryEntry::new` at the cursor of the data view.
- The superblock magic check, and the extent depth and entry-count checks, are not modelled, because the code does not perform them.
- Extent trees with depth > 0 and multiple extents: the code never follows them.
- `FileType`'s derived `Debug`, and `InodeNumber` as a newtype: the inode number is a `nat`.

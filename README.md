# btrfs on-disk format, modelled in Dafny

This project models the btrfs-diskformat crate: a byte-exact description of the
records btrfs keeps on disk. The structs are packed, little-endian and unaligned.
Every record here is a datatype with a decoder from a byte sequence
(`FromBytes`, returning `Result`) and an encoder (`ToBytes`). Round-trip lemmas
tie the two together in both directions.

- **Primitives**: the LE u16/u32/u64/i64 codec every record is built on, with
  its round trips and the two's-complement reading of signed integers.
- **Fixed-layout records**: key, time, stripe, device extent, block group item,
  device item, root backup, inode item, root item, chunk, root reference and the
  4096-byte superblock. Each decodes from exactly its size, with the fields at
  the running sums of the widths. Records deriving `FromBytes` accept every
  sequence of that length. The superblock (`csum_type`), the node header
  (`backref_rev`) and the inline references (the type byte) also reject an
  embedded enumeration value that names nothing.
- **Header plus counted tail**: a chunk followed by the stripes the caller asks
  for, a tree node followed by `num_items` items or key pointers, and a root
  reference followed by its name. The model proves the size arithmetic, the
  element offsets, and that a short buffer is rejected.
- **Inline extent back references**: a type byte from {176, 178, 182, 184}
  selects how the following bytes are read. The accessors of the full 29-byte
  form report a field only for the type that owns it. The typed views are the
  leading bytes of the full form, and `InlineRef` is the sum type with one
  constructor per type.
- **Enumerations, flags and constants**: reserved object ids and the free id
  range, checksum types, backref revisions, block group allocation and
  replication bits, inode flags, the magic number and the superblock addresses.
  `ObjectIds.IsValidReserved` keeps the source's early-return loop over the
  reserved ids in iteration order. It is proved to agree with membership and
  with the checked conversion.

Integers are unbounded in Dafny, so `u8/u16/u32/u64/i64` are subset types. The
`as u64` cast of the negative reserved ids is written out (`ObjectIds.CastToU64`).
Flag words are `bv64` values tested against their masks.

## Model

| member | source | states |
|---|---|---|
| Primitives.FromLEToLE | src/core/key.rs:9-11 | reading the n little-endian bytes written for any x below 256^n gives x back |
| Primitives.ToLEFromLE | src/core/key.rs:9-11 | writing the value of any byte sequence gives that sequence back |
| Primitives.FromLEInjective | src/core/key.rs:9-11 | two byte sequences of one length are equal exactly when their little-endian values are |
| Primitives.FromLEAppend | src/core/key.rs:9-11 | the value of a concatenation is the low part plus the high part shifted by the low part's width |
| Primitives.LeI64 | src/core/time.rs:23 | the signed reading is congruent to the unsigned one modulo 2^64 and is negative exactly when the top bit of byte 7 is set (two's complement) |
| Primitives.U16DecodeEncode | src/core/root_ref.rs:19 | an LE u16 reads back as the value written |
| Primitives.U32DecodeEncode | src/core/time.rs:28 | an LE u32 reads back as the value written |
| Primitives.U64DecodeEncode | src/core/key.rs:9 | an LE u64 reads back as the value written |
| Primitives.I64DecodeEncode | src/core/time.rs:23 | an LE i64, negative values included, reads back as the value written |
| Primitives.U16EncodeDecode | src/core/root_ref.rs:19 | any 2 bytes are the encoding of the u16 they hold |
| Primitives.U32EncodeDecode | src/core/time.rs:28 | any 4 bytes are the encoding of the u32 they hold |
| Primitives.U64EncodeDecode | src/core/key.rs:9 | any 8 bytes are the encoding of the u64 they hold |
| Primitives.I64EncodeDecode | src/core/time.rs:23 | any 8 bytes are the encoding of the i64 they hold |
| Constants.MagicIsAsciiText | src/constants.rs:7 | MAGIC is the little-endian u64 of the eight ASCII bytes "_BHRfS_M", and writing MAGIC gives those bytes |
| Constants.SuperblockAddrsOrdered | src/constants.rs:2-5 | the first copy address is the primary address 0x10000 and the three addresses strictly increase |
| ExtentDataRefs.FromBytes | src/extent/extent_data_ref.rs:10-25 | decoding succeeds exactly on sequences of length 28: every such sequence decodes, any other length is rejected |
| ExtentDataRefs.ToBytes | src/extent/extent_data_ref.rs:10-25 | the encoding is 28 bytes long |
| ExtentDataRefs.FromBytesToBytes | src/extent/extent_data_ref.rs:10-25 | decoding the encoding of any record gives the record back, with root, objectid and offset as LE u64 at 0, 8, 16 and count as LE u32 at 24 |
| ExtentDataRefs.ToBytesFromBytes | src/extent/extent_data_ref.rs:10-25 | encoding what any 28-byte sequence decodes to gives the sequence back |
| SharedDataRefs.FromBytes | src/extent/shared_data_ref.rs:12-18 | decoding succeeds exactly on sequences of length 4: every such sequence decodes, any other length is rejected |
| SharedDataRefs.ToBytes | src/extent/shared_data_ref.rs:12-18 | the encoding is 4 bytes long |
| SharedDataRefs.FromBytesToBytes | src/extent/shared_data_ref.rs:12-18 | decoding the encoding of any record gives the record back, with count as LE u32 at 0 |
| SharedDataRefs.ToBytesFromBytes | src/extent/shared_data_ref.rs:12-18 | encoding what any 4-byte sequence decodes to gives the sequence back |
| Keys.FromBytes | src/core/key.rs:6-13 | decoding succeeds exactly on sequences of length 17: every such sequence decodes, any other length is rejected |
| Keys.ToBytes | src/core/key.rs:6-13 | the encoding is 17 bytes long |
| Keys.FromBytesToBytes | src/core/key.rs:6-13 | decoding the encoding of any record gives the record back, with objectid LE u64 at 0, key_type at 8, offset LE u64 at 9, no padding |
| Keys.ToBytesFromBytes | src/core/key.rs:6-13 | encoding what any 17-byte sequence decodes to gives the sequence back |
| Stripes.FromBytes | src/chunk/stripe.rs:10-29 | decoding succeeds exactly on sequences of length 32: every such sequence decodes, any other length is rejected |
| Stripes.ToBytes | src/chunk/stripe.rs:10-29 | the encoding is 32 bytes long |
| Stripes.FromBytesToBytes | src/chunk/stripe.rs:10-29 | decoding the encoding of any record gives the record back, with devid LE u64 at 0, offset LE u64 at 8, dev_uuid at 16..32 |
| Stripes.ToBytesFromBytes | src/chunk/stripe.rs:10-29 | encoding what any 32-byte sequence decodes to gives the sequence back |
| DevExtents.FromBytes | src/dev/dev_extent.rs:11-29 | decoding succeeds exactly on sequences of length 48: every such sequence decodes, any other length is rejected |
| DevExtents.ToBytes | src/dev/dev_extent.rs:11-29 | the encoding is 48 bytes long |
| DevExtents.FromBytesToBytes | src/dev/dev_extent.rs:11-29 | decoding the encoding of any record gives the record back, with chunk_tree, chunk_objectid, chunk_offset, length as LE u64 at 0, 8, 16, 24, chunk_tree_uuid at 32..48 |
| DevExtents.ToBytesFromBytes | src/dev/dev_extent.rs:11-29 | encoding what any 48-byte sequence decodes to gives the sequence back |
| Times.FromBytes | src/core/time.rs:14-30 | decoding succeeds exactly on sequences of length 12: every such sequence decodes, any other length is rejected |
| Times.ToBytes | src/core/time.rs:14-30 | the encoding is 12 bytes long |
| Times.FromBytesToBytes | src/core/time.rs:14-30 | decoding the encoding of any record gives the record back, with timestamp as two's-complement LE i64 at 0, nanoseconds as LE u32 at 8 |
| Times.ToBytesFromBytes | src/core/time.rs:14-30 | encoding what any 12-byte sequence decodes to gives the sequence back |
| BlockGroupItems.FromBytes | src/extent/block_group_item.rs:9-21 | decoding succeeds exactly on sequences of length 24: every such sequence decodes, any other length is rejected |
| BlockGroupItems.ToBytes | src/extent/block_group_item.rs:9-21 | the encoding is 24 bytes long |
| BlockGroupItems.FromBytesToBytes | src/extent/block_group_item.rs:9-21 | decoding the encoding of any record gives the record back, with used, chunk_objectid, flags as LE u64 at 0, 8, 16 |
| BlockGroupItems.ToBytesFromBytes | src/extent/block_group_item.rs:9-21 | encoding what any 24-byte sequence decodes to gives the sequence back |
| DevItems.FromBytes | src/core/dev_item.rs:7-57 | decoding succeeds exactly on sequences of length 98: every such sequence decodes, any other length is rejected |
| DevItems.ToBytes | src/core/dev_item.rs:7-57 | the encoding is 98 bytes long |
| DevItems.FromBytesToBytes | src/core/dev_item.rs:7-57 | decoding the encoding of any record gives the record back, with the fields at their packed offsets, seek_speed at 64, bandwith at 65, uuid 66..82, fsid 82..98 |
| DevItems.ToBytesFromBytes | src/core/dev_item.rs:7-57 | encoding what any 98-byte sequence decodes to gives the sequence back |
| RootBackups.FromBytes | src/core/root_backup.rs:5-49 | decoding succeeds exactly on sequences of length 168: every such sequence decodes, any other length is rejected |
| RootBackups.ToBytes | src/core/root_backup.rs:5-49 | the encoding is 168 bytes long |
| RootBackups.FromBytesToBytes | src/core/root_backup.rs:5-49 | decoding the encoding of any record gives the record back, with fifteen LE u64 at 0..120, the unused words 120..152 as opaque bytes, six level bytes 152..158, unused bytes 158..168 |
| RootBackups.ToBytesFromBytes | src/core/root_backup.rs:5-49 | encoding what any 168-byte sequence decodes to gives the sequence back |
| InodeItems.FromBytes | src/core/inode_item.rs:8-72 | decoding succeeds exactly on sequences of length 160: every such sequence decodes, any other length is rejected |
| InodeItems.ToBytes | src/core/inode_item.rs:8-72 | the encoding is 160 bytes long |
| InodeItems.FromBytesToBytes | src/core/inode_item.rs:8-72 | decoding the encoding of any record gives the record back, with the fields at their packed offsets, the unused words 80..112 as opaque bytes, the four times at 112, 124, 136, 148 |
| InodeItems.ToBytesFromBytes | src/core/inode_item.rs:8-72 | encoding what any 160-byte sequence decodes to gives the sequence back |
| RootItems.FromBytes | src/core/root_item.rs:7-98 | decoding succeeds exactly on sequences of length 439: every such sequence decodes, any other length is rejected |
| RootItems.ToBytes | src/core/root_item.rs:7-98 | the encoding is 439 bytes long |
| RootItems.FromBytesToBytes | src/core/root_item.rs:7-98 | decoding the encoding of any record gives the record back, with an inode item at 0..160, generation at 160, refs 216..220, drop_progress 220..237, generation_v2 239..247, uuid 247..263, rtime 363..375, unused 375..439 |
| RootItems.ToBytesFromBytes | src/core/root_item.rs:7-98 | encoding what any 439-byte sequence decodes to gives the sequence back |
| Chunks.FromBytes | src/chunk/chunk.rs:22-54 | decoding succeeds exactly on sequences of length 48: every such sequence decodes, any other length is rejected |
| Chunks.ToBytes | src/chunk/chunk.rs:22-54 | the encoding is 48 bytes long |
| Chunks.FromBytesToBytes | src/chunk/chunk.rs:22-54 | decoding the encoding of any record gives the record back, with length, owner, stripe_len, chunk_type LE u64 at 0..32, io_align, io_width, sector_size LE u32 at 32..44, num_stripes, sub_stripes LE u16 at 44, 46 |
| Chunks.ToBytesFromBytes | src/chunk/chunk.rs:22-54 | encoding what any 48-byte sequence decodes to gives the sequence back |
| RootRefs.FromBytes | src/core/root_ref.rs:9-21 | decoding succeeds exactly on sequences of length 18: every such sequence decodes, any other length is rejected |
| RootRefs.ToBytes | src/core/root_ref.rs:9-21 | the encoding is 18 bytes long |
| RootRefs.FromBytesToBytes | src/core/root_ref.rs:9-21 | decoding the encoding of any record gives the record back, with dirid, sequence LE u64 at 0, 8, name_len LE u16 at 16 |
| RootRefs.ToBytesFromBytes | src/core/root_ref.rs:9-21 | encoding what any 18-byte sequence decodes to gives the sequence back |
| ExtentInlineRefs.TypeFromByte | src/extent/extent_inline_ref.rs:286-321 | a byte names a reference type exactly when it is 176, 178, 182 or 184, and then the type's value is that byte |
| ExtentInlineRefs.TypeRoundTrip | src/extent/extent_inline_ref.rs:286-321 | each type reads back from its byte and no two types share a byte |
| ExtentInlineRefs.HeaderFromBytes | src/extent/extent_inline_ref.rs:16-31 | a header decodes exactly from 9 bytes whose first byte names a type; a 9-byte sequence with another first byte is rejected as an unknown tag |
| ExtentInlineRefs.HeaderToBytes | src/extent/extent_inline_ref.rs:16-31 | the header encoding is 9 bytes |
| ExtentInlineRefs.HeaderFromBytesToBytes | src/extent/extent_inline_ref.rs:16-31 | decoding an encoded header gives it back: type byte at 0, LE u64 offset at 1..9 |
| ExtentInlineRefs.HeaderToBytesFromBytes | src/extent/extent_inline_ref.rs:16-31 | encoding a decoded header gives the 9 bytes back |
| ExtentInlineRefs.SharedDataTailFromBytes | src/extent/extent_inline_ref.rs:165-175 | every 12-byte sequence decodes, no other |
| ExtentInlineRefs.SharedDataTailToBytes | src/extent/extent_inline_ref.rs:165-175 | the encoding is 12 bytes |
| ExtentInlineRefs.SharedDataTailFromBytesToBytes | src/extent/extent_inline_ref.rs:165-175 | decoding an encoded tail gives it back: offset at 0..8, the shared data reference at 8..12 |
| ExtentInlineRefs.SharedDataTailToBytesFromBytes | src/extent/extent_inline_ref.rs:165-175 | encoding a decoded tail gives the 12 bytes back |
| ExtentInlineRefs.FullFromBytes | src/extent/extent_inline_ref.rs:33-49 | a full reference decodes exactly from 29 bytes whose first byte names a type, whatever the variant and whatever the tail; otherwise an unknown tag or a size mismatch |
| ExtentInlineRefs.FullToBytes | src/extent/extent_inline_ref.rs:33-49 | the encoding is 29 bytes |
| ExtentInlineRefs.FullFromBytesToBytes | src/extent/extent_inline_ref.rs:33-49 | decoding an encoded full reference gives it back: the type byte, then the 28-byte tail union |
| ExtentInlineRefs.FullToBytesFromBytes | src/extent/extent_inline_ref.rs:33-49 | encoding a decoded full reference gives the 29 bytes back |
| ExtentInlineRefs.InlineTreeBlockRefFromBytes | src/extent/extent_inline_ref.rs:177-198 | the view decodes exactly from 9 bytes whose first byte is 176; any other first byte is an unknown tag |
| ExtentInlineRefs.InlineTreeBlockRefToBytes | src/extent/extent_inline_ref.rs:177-198 | the encoding is 9 bytes |
| ExtentInlineRefs.InlineTreeBlockRefFromBytesToBytes | src/extent/extent_inline_ref.rs:177-198 | decoding an encoded view gives it back, with the tag 176 written at byte 0 |
| ExtentInlineRefs.InlineTreeBlockRefToBytesFromBytes | src/extent/extent_inline_ref.rs:177-198 | encoding a decoded view gives its 9 bytes back |
| ExtentInlineRefs.InlineSharedBlockRefFromBytes | src/extent/extent_inline_ref.rs:200-217 | the view decodes exactly from 9 bytes whose first byte is 182; any other first byte is an unknown tag |
| ExtentInlineRefs.InlineSharedBlockRefToBytes | src/extent/extent_inline_ref.rs:200-217 | the encoding is 9 bytes |
| ExtentInlineRefs.InlineSharedBlockRefFromBytesToBytes | src/extent/extent_inline_ref.rs:200-217 | decoding an encoded view gives it back, with the tag 182 written at byte 0 |
| ExtentInlineRefs.InlineSharedBlockRefToBytesFromBytes | src/extent/extent_inline_ref.rs:200-217 | encoding a decoded view gives its 9 bytes back |
| ExtentInlineRefs.InlineExtentDataRefFromBytes | src/extent/extent_inline_ref.rs:219-240 | the view decodes exactly from 29 bytes whose first byte is 178; any other first byte is an unknown tag |
| ExtentInlineRefs.InlineExtentDataRefToBytes | src/extent/extent_inline_ref.rs:219-240 | the encoding is 29 bytes |
| ExtentInlineRefs.InlineExtentDataRefFromBytesToBytes | src/extent/extent_inline_ref.rs:219-240 | decoding an encoded view gives it back, with the tag 178 written at byte 0 |
| ExtentInlineRefs.InlineExtentDataRefToBytesFromBytes | src/extent/extent_inline_ref.rs:219-240 | encoding a decoded view gives its 29 bytes back |
| ExtentInlineRefs.InlineSharedDataRefFromBytes | src/extent/extent_inline_ref.rs:242-265 | the view decodes exactly from 13 bytes whose first byte is 184; any other first byte is an unknown tag |
| ExtentInlineRefs.InlineSharedDataRefToBytes | src/extent/extent_inline_ref.rs:242-265 | the encoding is 13 bytes |
| ExtentInlineRefs.InlineSharedDataRefFromBytesToBytes | src/extent/extent_inline_ref.rs:242-265 | decoding an encoded view gives it back, with the tag 184 written at byte 0 |
| ExtentInlineRefs.InlineSharedDataRefToBytesFromBytes | src/extent/extent_inline_ref.rs:242-265 | encoding a decoded view gives its 13 bytes back |
| ExtentInlineRefs.Offset | src/extent/extent_inline_ref.rs:52-65 | none exactly for an extent data reference; otherwise the LE u64 in the first 8 tail bytes, also for a shared data reference that reads it through its shared data tail |
| ExtentInlineRefs.ExtentDataRefOf | src/extent/extent_inline_ref.rs:67-75 | some exactly for an extent data reference, and then a record whose encoding is the whole 28-byte tail |
| ExtentInlineRefs.SharedDataTailOf | src/extent/extent_inline_ref.rs:77-85 | some exactly for a shared data reference, and then a tail whose encoding is the first 12 tail bytes |
| ExtentInlineRefs.FullAccessorsOnBytes | src/extent/extent_inline_ref.rs:52-85 | on a decoded 29-byte buffer: the offset is the u64 at 1..9 unless byte 0 is 178; the extent data reference exists iff byte 0 is 178 and is bytes 1..29; the shared data tail exists iff byte 0 is 184, with offset at 1..9 and count at 9..13 |
| ExtentInlineRefs.HeaderIsPrefixOfFull | src/extent/extent_inline_ref.rs:8-49 | the first 9 bytes of a full reference decode as a header with the same type and, where the type has one, the same offset |
| ExtentInlineRefs.SharedDataCountIgnoresHeader | src/extent/shared_data_ref.rs:5-17 | two shared data references whose bytes 9..13 agree have the same count, whatever bytes 0..9 hold |
| ExtentInlineRefs.AsTreeBlockRef | src/extent/extent_inline_ref.rs:87-102 | some exactly for a tree block reference; its offset is the full reference's offset and its encoding is the first 9 bytes of the full reference |
| ExtentInlineRefs.AsSharedBlockRef | src/extent/extent_inline_ref.rs:104-119 | some exactly for a shared block reference; its offset is the full reference's offset and its encoding is the first 9 bytes of the full reference |
| ExtentInlineRefs.AsExtentDataRef | src/extent/extent_inline_ref.rs:121-136 | some exactly for an extent data reference; it holds the same record as the accessor and its encoding is all 29 bytes |
| ExtentInlineRefs.AsSharedDataRef | src/extent/extent_inline_ref.rs:138-153 | some exactly for a shared data reference; it holds the same tail and offset as the accessors and its encoding is the first 13 bytes |
| ExtentInlineRefs.ExactlyOneView | src/extent/extent_inline_ref.rs:87-153 | exactly one of the four views of any full reference exists |
| ExtentInlineRefs.InlineRefSize | src/extent/extent_inline_ref.rs:88-91 | every view size lies between the 9-byte header and the 29-byte full form, reached only by the extent data reference |
| ExtentInlineRefs.InlineRefToBytes | src/extent/extent_inline_ref.rs:177-265 | a typed reference is written in the size its type gives |
| ExtentInlineRefs.ViewOf | src/extent/extent_inline_ref.rs:87-153 | the view of a full reference has the reference's type and its encoding is the leading bytes of the full reference |
| ExtentInlineRefs.InlineRefFromPrefix | src/extent/extent_inline_ref.rs:177-265 | reading a typed view from the front of a buffer succeeds iff the first byte names a type and the buffer holds that type's size; an unnamed type byte is an unknown tag; the result carries the tag read and its encoding is the bytes consumed |
| ExtentInlineRefs.InlineRefPrefixRoundTrip | src/extent/extent_inline_ref.rs:177-265 | a typed reference written before any other bytes reads back as itself |
| ExtentInlineRefs.ViewOfFullIsPrefixRead | src/extent/extent_inline_ref.rs:87-153 | reading the 29-byte full form and taking its view is the same as reading the view from the front of those bytes |
| Chunks.StripesFromBytes | src/chunk/chunk.rs:118-119 | n stripes read back to back: stripe i from bytes 32i..32i+32 |
| Chunks.StripesToBytes | src/chunk/chunk.rs:118-119 | stripes written back to back: stripe i occupies bytes 32i..32i+32 |
| Chunks.RefFromPrefixWithElems | src/chunk/chunk.rs:83-120 | the dynamic view succeeds iff the buffer holds 48 + 32n bytes, otherwise a truncated record; its fixed fields are the Chunk decoded from the first 48 bytes, stripe i is the 32 bytes at 48 + 32i, and the rest follows the 48 + 32n bytes |
| Chunks.StripesInBuffer | src/chunk/chunk.rs:118-119 | stripe i of the array after the fixed part is the stripe at 48 + 32i of the whole buffer |
| Chunks.IntoDynamic | src/chunk/chunk.rs:65-80 | given the caller's stripe count n, not the stored num_stripes, and the 32n bytes after the chunk, the view always succeeds with this chunk and stripe i read from bytes 32i..32i+32 of those bytes |
| Chunks.NoStripes | src/chunk/chunk.rs:65-80 | with n = 0 the view succeeds on any buffer of at least 48 bytes and has no stripes |
| Chunks.DynamicToBytes | src/chunk/chunk.rs:88-120 | a dynamic chunk is written in 48 + 32n bytes |
| Chunks.DynamicRoundTrip | src/chunk/chunk.rs:83-120 | a written dynamic chunk followed by anything reads back as itself and the rest, with its own stripe count |
| Chunks.StripesBytesRoundTrip | src/chunk/chunk.rs:118-119 | writing the n stripes read from a buffer gives its first 32n bytes back |
| Chunks.DynamicBytesRoundTrip | src/chunk/chunk.rs:83-120 | writing the view read from a buffer of at least 48 + 32n bytes, then the rest, gives the buffer back |
| Stripes.EqualIffBytesEqual | src/chunk/stripe.rs:10-14 | two stripes are equal iff their 32-byte encodings are |
| Nodes.BackrefFromByte | src/core/node.rs:81-102 | a byte names a revision exactly when it is 0 (Old) or 1 (Mixed) |
| Nodes.BackrefRoundTrip | src/core/node.rs:81-102 | each revision reads back from its byte |
| Nodes.HeaderFromBytes | src/core/node.rs:8-43 | a header decodes exactly from 101 bytes whose byte 63 is 0 or 1; any other byte 63 is an unknown tag |
| Nodes.HeaderToBytes | src/core/node.rs:8-43 | the encoding is 101 bytes |
| Nodes.HeaderFromBytesToBytes | src/core/node.rs:8-43 | decoding an encoded header gives it back: csum 0..32, fs_uuid 32..48, logical_address 48, flags 56..63, backref_rev 63, chunk_tree_uuid 64..80, generation 80, tree_id 88, num_items 96 (u32), level 100 |
| Nodes.HeaderToBytesFromBytes | src/core/node.rs:8-43 | encoding a decoded header gives the 101 bytes back |
| Nodes.KeyPointerFromBytes | src/core/node.rs:45-56 | every 33-byte sequence decodes, no other |
| Nodes.KeyPointerToBytes | src/core/node.rs:45-56 | the encoding is 33 bytes |
| Nodes.KeyPointerFromBytesToBytes | src/core/node.rs:45-56 | decoding an encoded key pointer gives it back: key 0..17, block_pointer 17, generation 25 |
| Nodes.KeyPointerToBytesFromBytes | src/core/node.rs:45-56 | encoding a decoded key pointer gives the 33 bytes back |
| Nodes.ItemFromBytes | src/core/node.rs:58-79 | every 25-byte sequence decodes, no other |
| Nodes.ItemToBytes | src/core/node.rs:58-79 | the encoding is 25 bytes |
| Nodes.ItemFromBytesToBytes | src/core/node.rs:58-79 | decoding an encoded item gives it back: key 0..17, offset 17 and size 21 as LE u32 |
| Nodes.ItemToBytesFromBytes | src/core/node.rs:58-79 | encoding a decoded item gives the 25 bytes back |
| Nodes.ItemsFromBytes | src/core/node.rs:58-66 | count items read back to back: item i from bytes 25i..25i+25 |
| Nodes.KeyPointersFromBytes | src/core/node.rs:45-48 | count key pointers read back to back: pointer i from bytes 33i..33i+33 |
| Nodes.NodeFromPrefix | src/core/node.rs:37-66 | a node reads from a buffer iff it holds the 101-byte header with a valid byte 63 and num_items elements after it; a short buffer is a truncated record; level 0 gives a leaf whose item i is at 101 + 25i, any other level an internal node whose key pointer i is at 101 + 33i |
| Nodes.ItemsInBuffer | src/core/node.rs:58-66 | item i after the header is the item at 101 + 25i of the node |
| Nodes.KeyPointersInBuffer | src/core/node.rs:45-48 | key pointer i after the header is the pointer at 101 + 33i of the node |
| Nodes.ItemData | src/core/node.rs:58-78 | an item's payload exists iff its size bytes at 101 + offset lie inside the node, and is then exactly those bytes |
| Nodes.ItemDataInLeaf | src/core/node.rs:58-78 | in a parsed leaf, item i's payload exists iff 101 plus the u32 offset at byte 17 of the item plus the u32 size at byte 21 stays within the buffer, and is then exactly that raw slice of the buffer |
| RootRefs.FromPrefixWithName | src/core/root_ref.rs:5-21 | a root reference with its name reads iff the buffer holds the 18-byte header and name_len more bytes, otherwise a truncated record; the name is the name_len bytes at 18 |
| RootRefs.ToBytesWithName | src/core/root_ref.rs:5-21 | a root reference and its name are written in 18 + name_len bytes |
| RootRefs.WithNameRoundTrip | src/core/root_ref.rs:5-21 | a written root reference and name, followed by anything, read back as themselves |
| SuperBlocks.ChecksumTypeFromU16 | src/core/super_block.rs:130-151 | a u16 names a checksum type exactly when it is at most 3, and then the type's value is that u16 |
| SuperBlocks.ChecksumTypeRoundTrip | src/core/super_block.rs:130-151 | each checksum type reads back from its value |
| SuperBlocks.FromLegacy | src/constants.rs:24-31 | the legacy checksum numbering names the same checksum type, value for value |
| SuperBlocks.RootsFromBytes | src/core/super_block.rs:124 | n backup roots read from 168n bytes |
| SuperBlocks.RootsToBytes | src/core/super_block.rs:124 | n backup roots written in 168n bytes |
| SuperBlocks.RootsToBytesAt | src/core/super_block.rs:124 | backup root i occupies bytes 168i..168i+168 of the array |
| SuperBlocks.RootsFromBytesToBytes | src/core/super_block.rs:124 | reading written backup roots gives them back |
| SuperBlocks.RootsToBytesFromBytes | src/core/super_block.rs:124 | writing the backup roots read from 168n bytes gives the bytes back |
| SuperBlocks.FromBytes | src/core/super_block.rs:27-128 | a superblock decodes exactly from 4096 bytes whose LE u16 at 196 is at most 3; any other checksum type is an unknown tag |
| SuperBlocks.ToBytes | src/core/super_block.rs:27-128 | the encoding is 4096 bytes |
| SuperBlocks.FromBytesToBytes | src/core/super_block.rs:29-127 | decoding an encoded superblock gives it back: csum 0..32, fsid 32..48, bytenr, flags, magic, generation, root as LE u64 at 48..88, csum_type at 196, dev_item 201..299, label 299..555, sys_chunk_array 811..2859, the four backup roots at 2859..3531, 565 unused bytes |
| SuperBlocks.ToBytesFromBytes | src/core/super_block.rs:27-128 | encoding a decoded superblock gives the 4096 bytes back |
| SuperBlocks.HasValidMagicFromBytes | src/core/super_block.rs:42 | a decoded superblock holds MAGIC iff bytes 64..72 are the text "_BHRfS_M" |
| SuperBlocks.TextLength | src/core/super_block.rs:112-113 | the text of a label is the bytes before its first NUL: none of them is NUL and the byte after them is |
| SuperBlocks.SysChunks | src/core/super_block.rs:82-85 | the meaningful system chunk bytes of a well-formed superblock are the first sys_chunk_array_size bytes of the array |
| SuperBlocks.SysChunksFromBytes | src/core/super_block.rs:82-122 | for a decoded well-formed superblock, sys_chunk_array_size (the u32 at offset 160) is at most 2048 and the system chunks are the bytes from offset 811 of that length |
| SuperBlocks.UsableSuperblockAddrs | src/core/super_block.rs:14-17 | an address is usable iff it is a superblock address whose 4096-byte copy fits on the device; the usable ones are a prefix of the address list |
| SuperBlocks.Fitting | src/core/super_block.rs:14-17 | of increasing addresses, those whose copy fits, which form a prefix |
| SuperBlocks.UsableSuperblockAddrsBounds | src/core/super_block.rs:14-17 | a device too small for the primary copy has no usable address; a device of 256 GiB plus 4096 bytes or more has all three |
| DevItems.WellFormedFromBytes | src/core/dev_item.rs:43-49 | a decoded item is well formed iff the seek_speed and bandwith bytes 64 and 65 are at most 100 |
| RootItems.V2FieldsValidFromBytes | src/core/root_item.rs:43-50 | the fields after generation_v2 are valid iff bytes 239..247 equal bytes 160..168 (generation_v2 == generation) |
| RootItems.WellFormedFromBytes | src/core/root_item.rs:18-30 | a decoded item is well formed (refs 0 or 1, byte_limit 0) iff bytes 216..220 are 0 or 1 in LE and bytes 184..192 are zero |
| RootItems.AtMostOne | src/core/root_item.rs:29-30 | an LE u32 is at most 1 iff its bytes are 0 0 0 0 or 1 0 0 0 |
| RootItems.IsZero | src/core/root_item.rs:18-19 | an LE u64 is 0 iff its bytes are all zero |
| BlockGroupItems.FlagBitsAreDistinct | src/extent/block_group_item.rs:23-48 | each allocation and replication flag is a single bit, replication flags are pairwise disjoint, the masks are 0x7 and 0x7F8 and are disjoint |
| BlockGroupItems.FlagsSplit | src/extent/block_group_item.rs:23-48 | the allocation and replication parts of a flags word are disjoint and together are its known bits |
| BlockGroupItems.FlagsSplitUnique | src/extent/block_group_item.rs:23-48 | any split of the known bits into an allocation part and a replication part is that one |
| BlockGroupItems.SingleReplicationIff | src/extent/block_group_item.rs:36-38 | at most one replication bit is set iff the replication part is zero or one of the eight policies |
| BlockGroupItems.FlagsWellFormedFromBytes | src/extent/block_group_item.rs:18-49 | an item's flags are well formed iff, in the u64 at offset 16, SYSTEM is not mixed with DATA or METADATA and at most one replication policy is set; for every item, writing it out and reading it back keeps its flags well formed exactly when they were |
| BlockGroupItems.WorkedFlags | src/extent/block_group_item.rs:23-48 | DATA|RAID1 = 0x11 is well formed; SYSTEM|DATA = 0x3 is not; DATA|METADATA may mix; RAID0|RAID1 has two policies |
| InodeItems.InodeFlagsAreSingleBits | src/core/inode_item.rs:74-113 | the twelve inode flags are distinct single bits 0x1..0x800 and the known mask is their union 0xFFF |
| InodeItems.InodeFlagsFromBits | src/core/inode_item.rs:74-113 | a flag word converts strictly iff it is below 0x1000 |
| InodeItems.InodeFlagsTruncate | src/core/inode_item.rs:74-113 | truncation keeps exactly the known flags of a word, and its result always converts strictly |
| InodeItems.FlagsKnownFromBytes | src/core/inode_item.rs:49-113 | an inode item's flags hold only declared flags iff the u64 at offset 64 is below 0x1000 |
| Times.Compare | src/core/time.rs:6-29 | the derived comparison reports Equal exactly for equal times |
| Times.CompareAntisymmetric | src/core/time.rs:6-20 | a is less than b iff b is greater than a |
| Times.CompareTransitive | src/core/time.rs:6-20 | the derived ordering is transitive |
| Times.CompareIsInstantOrder | src/core/time.rs:21-29 | on times whose nanoseconds lie within the second, comparing timestamp then nanoseconds is comparing the instants they denote |
| ObjectIds.CastToU64 | src/core/object_id.rs:48-72 | the cast keeps the value modulo 2^64 |
| ObjectIds.Position | src/core/object_id.rs:6-73 | each reserved id sits in the iteration order at the position returned |
| ObjectIds.AllReservedEnumerates | src/core/object_id.rs:6-73 | iteration visits all 20 reserved ids, and no two of them stand for the same u64 |
| ObjectIds.TryFromPrimitive | src/core/object_id.rs:6-73 | the conversion succeeds iff some reserved id stands for x, and then yields one that does |
| ObjectIds.TryFromPrimitiveOfValue | src/core/object_id.rs:6-73 | converting a reserved id to u64 and back gives it again |
| ObjectIds.IterationOrderIsNotValueOrder | src/core/object_id.rs:6-73 | the derived ordering follows the ids' values, which agrees with iteration order for the first eleven ids but puts Orphan, visited after Balance, below it |
| ObjectIds.ConversionsInverse | src/core/object_id.rs:75-108 | the u64 and ObjectId conversions are mutual inverses and id order is u64 order |
| ObjectIds.IsValidReserved | src/core/object_id.rs:83-91 | true iff some reserved id stands for the id, which is iff the checked conversion succeeds |
| ObjectIds.FreeRangeBounds | src/core/object_id.rs:79-95 | an id is in the free range iff 256 <= id <= 2^64 - 256 |
| ObjectIds.ReservedNotFree | src/core/object_id.rs:10-81 | no reserved id is in the free range: each is at most 10 or at least 2^64 - 255 |
| ObjectIds.WorkedValues | src/core/object_id.rs:10-95 | 1 is RootTree and not free, 255 is neither reserved nor free, 256 is free and not reserved, Balance is 0xFFFF_FFFF_FFFF_FFFC, MultipleObjectIds is 2^64 - 255, the last free id is 0xFFFF_FFFF_FFFF_FF00 |

## Left out

- Unsafe pointer casts, raw slice construction, lifetimes, the zerocopy derive machinery and the `const_assert`s. They are modelled as decoding an explicit byte sequence, and the sizes are proved instead of checked at compile time. `Chunk::into_dynamic` therefore takes the bytes that follow the chunk as a parameter (`Chunks.IntoDynamic`).
- Chunks.IntoDynamic: the `usize` overflow of `48 + 32n` is not modelled. Integers are unbounded, and its precondition states the trailing bytes the source's safety contract demands.
- The duplicate files `src/structures.rs`, `src/core/node_header.rs`, `src/core/disk_key.rs` and `src/core/shared_data_ref.rs` are older copies of records modelled from their canonical files. `src/core/mod.rs` re-exports under names that differ from the files modelled. These and the other re-export files (`src/lib.rs`, `src/aliases.rs`, `src/extent/mod.rs`, `src/types.rs`) are not part of this model.
- bitflags and strum library semantics. Flag sets are bit masks with a strict and a truncating conversion (`BitFlags`). Enum iteration is the explicit list `ObjectIds.ALL_RESERVED` in declaration order.
- The magic number is not checked by any decoder. `SuperBlocks.HasValidMagic` is a separate predicate, as in the crate.
- No checksum algorithm (CRC32C, xxHash64, SHA-256, BLAKE2b) is computed. `csum` fields are opaque bytes.
- Keys have no ordering in the crate, so none is modelled.
- The host-endian `_unused: [u64; N]` arrays of the inode item, root item and root backup are kept as opaque bytes, never read as numbers.
- The superblock label's UTF-8 encoding is not checked. `SuperBlocks.LabelWellFormed` checks only the NUL terminator and the forbidden '/' and '\\'.
- `ChecksumType` discriminants are written `n.to_le()`. On a big-endian host that changes the in-memory constant. The model fixes the on-disk LE u16 values 0..3.
- The superblock field `label` is named `fsLabel`, because `label` is a Dafny keyword.
- `ChunkDynamic` repeats the chunk's fixed fields. The model groups them as a `Chunk` value with the stripes after it. `Chunks.RefFromPrefixWithElems` proves those fixed fields decode as the `Chunk` read from the same 48 bytes.
- The superblock encoder is written as six consecutive named parts (`SuperBlocks.IdentityBytes` … `SuperBlocks.BackupBytes`). The part lemmas are proof devices for its round trip. They carry no row of their own.
- `ExtentInlineRefs.InlineRefFromPrefix`, `ExtentInlineRefs.InlineRef` and `ExtentInlineRefs.ViewOf` have no single counterpart in the crate. They state reading a typed view from the front of a buffer, which the views' derived prefix conversion provides.
- `Nodes.NodeFromPrefix`, `Nodes.ItemData`, `RootRefs.FromPrefixWithName`, `SuperBlocks.TextLength`, `SuperBlocks.SysChunks`, `SuperBlocks.UsableSuperblockAddrs`, `SuperBlocks.Fitting`, the `WellFormed` predicates and the `FlagsWellFormed` and `FlagsKnown` predicates are not crate functions either. They are built from the layout the crate documents: the crate declares the records and leaves reading a whole node, an item's payload, a name, the label text, the meaningful system chunk bytes and the usable superblock copies to its callers.
- The chunk's `sub_stripes` rule (2 for RAID-10, 1 otherwise) is the predicate `Chunks.SubStripesWellFormed`, a documented property that no code enforces. Nothing is proved about it.
- Reading from a disk at the superblock addresses, B-tree search, and mounting or writing a filesystem are outside this layer.

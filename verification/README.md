# Verified model of a pure Go HDF5 library

The library reads and writes HDF5 files (HDF5 File Format Specification Version 3.0) without the C library. This
project models its layout-aware algorithms in Dafny and proves that each one implements a much simpler meaning: a
chunked array is the array, a chunk index is the sorted list of its chunks, an object header is its message list, the
attributes of an object are a map, a heap reference names its bytes, a group is a sorted directory. Code that works in
place is modelled in place (methods over arrays, loops, classes with mutable fields) and tied to a specification
function or predicate; the theorems are about those and about whole write-then-read runs.

`dafny verify dfyconfig.toml` checks everything.

## Modules

- `Arith`, `Bytes`, `MixedRadix`, `RowMajor`: division facts, little-endian integers, row-major offsets as mixed-radix
  numbers, and the row-by-row filling of an output buffer.
- `Storage`: the file as a map from addresses to bytes and an allocator handing out fresh, disjoint regions.
- `ChunkAssembly`, `ChunkWriting`, `Hyperslab`: whole-array reads, chunked writes and strided, blocked selections over
  chunks, for every rank, shape and chunking.
- `ChunkStore`: a chunked dataset through the file: chunks and index written, index collected, chunks loaded, array
  assembled.
- `ChunkNode`, `ChunkTree`, `ChunkIndex`: the version 1 B-tree over chunks (section III.A.1): one node as bytes, the
  bottom-up bulk load, and what the reader collects.
- `ObjectHeader`, `HeaderRoundTrip`: version 2 object headers and continuation blocks (sections IV.A.1.b and
  IV.A.2.q).
- `AttributeCodec`, `AttributeMessages`, `AttributeStore`, `AttributeWriter`: attribute messages, and the writer that
  moves an object from inline messages through continuation blocks to dense storage.
- `GlobalHeap`, `GlobalHeapReader`: variable-length objects packed into collections (section III.E) and found again.
- `LocalHeap`, `GroupLinks`, `GroupTable`, `HardLinks`: names of a group, its sorted leaves under a rebuilt B-tree
  (sections III.A.1 and III.B), and the reference-count protocol of hard links.
- `LinkCount`: the reference-count message in the bytes of a header, from the object's creation to its deletion.
- `Compound`, `Lzf`, `Shuffle`: nested compound datatypes (section IV.A.2.d), the LZF filter in both directions, and
  the shuffle filter.
- `Allocator`: the file space allocator with its free list, best fit, coalescing and shrinking.

## What does not hold, and exactly when it does

- A chunk cut off by the edge of the dataset is written compactly but read with the strides of a whole chunk, and the
  reader refuses chunks of more than 2^30 and datasets of more than 2^40 bytes, which the writer does not. Writing and
  reading back gives the data if and only if no dimension whose extent is not a multiple of the chunk's comes after a
  dimension in which some chunk is longer than one element, and both sizes are within those limits; otherwise the read
  fails (`ChunkWriting.WriteThenRead`, and through the file and its index `ChunkStore.WriteThenRead`).
- The chunk-by-chunk selection equals slicing the whole array on all data whose whole read succeeds if and only if in
  every dimension Block <= Stride, or Count and Stride are both 1. For every other selection some output slot is never written, so the
  two differ on all data without zero bytes, which every grid has (`Hyperslab.DeadSlotExists`,
  `Hyperslab.ReadBothWays`, `Hyperslab.DenseDataExists`).
- A chunk key survives the index if and only if its coordinate times the chunk extent stays below 2^64
  (`ChunkNode.KeySurvives`).
- A header written with flag bits 0x04, 0x10 or 0x20 set is written without the fields those bits announce, so a header
  reads back for all messages if and only if those three bits are clear (`HeaderRoundTrip.FlagsDecide`).
- A number type is parsed back from the front of a longer string if and only if it has the property length its class
  prescribes (`Compound.NumberSelfDelimiting`).
- A link added to a group of at most 256 links is there afterwards, with all others, if and only if there were fewer
  than 256, or by one accident at 256. Linking a 257th name succeeds, but the B-tree node then counts 33 leaves and has
  slots for 32. What the reader takes for the 33rd child are the bytes behind the node: when fewer than 16 follow,
  reading the group is an error; when they are a null address, the last link is gone; when they name a leaf, its entries
  are read instead, and only if those are exactly the missing ones is nothing lost. The next call starts from what it
  can read: over a null address a further link succeeds and drops one more, and an unlink leaves a valid group without
  the lost link; on an unreadable group both fail; and a link is refused as soon as more than 263 entries are read
  (`GroupTable.Group.LinkToParent`, `GroupTable.Group.OverflowReads`, `GroupTable.Group.OverflowLoses`,
  `GroupTable.Group.WholeIff`).
- The links of a group are in name order after a link if and only if its name fit the heap, or the links were in order
  and none is above the new one. A name that makes the heap grow is sorted against a heap that cannot resolve any other
  name yet, so it goes to the end; the next name that fits sorts all of them again. Then the keys of the B-tree do not
  bracket the names (`GroupTable.Group.LinkToParent`, `GroupTable.Run`, `GroupTable.GrowthUnsettles`).
- The grown heap has a new address, which is written to the object header of the root group only. Whoever opens the file
  sees a link of another group under its name if and only if the name was added before the heap first grew, and without
  a name otherwise (`GroupTable.Group.HeaderShows`, `GroupTable.Run`). A link that fails after the heap was moved
  leaves the group without a heap (`GroupTable.Group.LinkToParent`).
- A stored reference count never falls below the number of links of an object. All counts are equal to it if and only
  if no call leaked: no new dataset that is not linked, be it for a missing parent or a refusal, no hard link whose
  target was found but whose parent is missing, none that was refused when the target's count was 1, since the rollback
  never writes a count of 1, and none that displaces an entry of an overflowing group. A leaked count never comes back
  (`HardLinks.CallKeeps`, `HardLinks.RunKeeps`, `HardLinks.Run`).
- The first count above 1 adds a message to a header that fills its region, so the header outgrows it by at least eight
  bytes, and deleting the object later frees a block that was never handed out. Writing counts stays inside the header's
  region, and deletion keeps the allocator whole, if and only if the header had a count message from the start or no
  count is ever set (`LinkCount.StaysInPlace`, `LinkCount.Lifetime`).
- Freeing keeps the tiling of the file into allocated and free blocks if and only if the block was handed out and not
  yet freed; everything else of at least one byte is accepted and breaks it (`Allocator.SpaceAllocator.Free`).
- A variable-length string stored through the global heap is read back if and only if it does not end in a zero byte,
  since the reader strips those (`GlobalHeapReader.Session`, `GlobalHeapReader.TrimmedExact`).
- The shuffle filter recovers every non-empty buffer of whole elements below 2^32 bytes. It accepts an empty buffer on
  writing and refuses it on reading, and of a longer buffer it keeps only what its 32-bit length counts
  (`Shuffle.RoundTrip`).
- Rewriting an existing inline attribute reads back as the map update if and only if the object has no continuation
  blocks: with blocks, their messages go into the main chunk, which still refers to the blocks, so names occur twice.
  When the rewritten header runs into a block, the object cannot be read at all, unless by accident the signatures of
  all blocks survive. The write stays inside the header's region if and only if the rewritten header is no larger than
  its allocation, which is not checked (`AttributeWriter.GroupWriter.ReplaceExisting`, `AttributeWriter.RewriteShown`,
  `AttributeStore.BrokenUnreadable`, `AttributeWriter.StaysInside`, `AttributeWriter.LongerValueOutgrows`).
- A write to dense storage is the map update if and only if the record found by hash, if any, has the attribute's own
  name; otherwise it replaces another attribute (`AttributeWriter.UpsertUpdates`,
  `AttributeWriter.GroupWriter.WriteDense`, `AttributeWriter.CollidingNames`).

Where comments and code disagree the model follows the code: the comment at group_write.go:316-318 promises a leaf
split, but the code redistributes all entries eight to a leaf; the comment at link_write.go:50 says links cannot be
deleted, but delete_write.go deletes them; the comments at attribute_write.go:18 and 196 promise dense storage with
the eighth attribute, but the code moves with the ninth; the comment at internal/core/objectheader_write.go:67-72 says
256 bytes hold about seven compact attributes, which the model does not assume.

## Model

| member | source | states |
|---|---|---|
| ChunkAssembly.CopyRow | internal/core/dataset_reader.go:422-455 | one row copy changes exactly the bytes of that row's elements, to the chunk's bytes, and fails exactly when the chunk's data end before it |
| ChunkAssembly.CopyRecursive | internal/core/dataset_reader.go:419-466 | the recursion over the shared index buffer writes exactly the region under its prefix, restores the prefix, and fails if and only if the stored data are too short |
| ChunkAssembly.CopyNDChunk | internal/core/dataset_reader.go:379-416 | after copying, every element owned by the chunk is the chunk's byte at the element's position within it; all others are unchanged; edge chunks are clipped |
| ChunkAssembly.RegionIsOwner | internal/core/dataset_reader.go:394-405 | a coordinate lies in a chunk's clipped region if and only if dividing it by the chunk shape gives that chunk, and the remainder is its place inside |
| ChunkAssembly.OwnerInGrid | internal/core/dataset_reader.go:394-405 | every coordinate of the dataset is owned by a chunk of the grid |
| ChunkAssembly.ChunksDisjoint | internal/core/dataset_reader.go:379-416 | the regions of two different chunks never share an element |
| ChunkAssembly.ReadChunkedData | internal/core/dataset_reader.go:286-363 | the assembled array holds at each element the byte of its owning chunk, zero where the chunk is absent; the read fails if and only if the dataset or a chunk has a size that is refused, or some chunk is too short |
| ChunkAssembly.IndexLookup | internal/core/dataset_reader.go:286-363 | for distinct coordinates the chunk list denotes the map from coordinate to data |
| ChunkAssembly.OrderDoesNotMatter | internal/core/dataset_reader.go:286-363 | any two orders of the same distinct chunks assemble to the same array |
| ChunkWriting.ExtractRecursive | internal/writer/chunk_coordinator.go:258-292 | fills exactly the chunk buffer's part under the current prefix with the dataset's elements |
| ChunkWriting.ExtractChunkData | internal/writer/chunk_coordinator.go:224-240 | the chunk's buffer holds its clipped region of the dataset in row-major order |
| ChunkWriting.GetChunkCoordinate | internal/writer/chunk_coordinator.go:141-153 | the coordinate of a linear index is the row-major inverse over the grid and lies in the grid |
| ChunkWriting.WriteChunkedData | dataset_write_chunked.go:253-260 | cuts the data into the chunks of the grid, each once, in row-major order, each with its region of the data |
| ChunkWriting.LayoutsAgree | internal/core/dataset_reader.go:384-416 | the clipped and the full layout of a chunk place all elements alike exactly when no clipped dimension follows a longer one |
| ChunkWriting.StoredReadable | internal/writer/chunk_coordinator.go:224-292 | a stored edge chunk is long enough for the reader if and only if the two layouts agree |
| ChunkWriting.GridCompatible | internal/writer/chunk_coordinator.go:179-196 | under the round-trip condition on the shapes, every chunk of the grid has agreeing layouts |
| ChunkWriting.GridIncompatible | internal/writer/chunk_coordinator.go:179-196 | when the condition fails, a chunk of the grid with disagreeing layouts exists |
| ChunkWriting.FirstIsLargest | internal/writer/chunk_coordinator.go:179-196 | no stored chunk is empty or longer than the first one, so the first decides whether any is too large for the reader |
| ChunkWriting.ReadComplete | internal/core/dataset_reader.go:286-363 | assembling the stored chunks in any order returns the data exactly if the shapes meet the round-trip condition and the reader's limits, and otherwise fails |
| ChunkWriting.WriteThenRead | dataset_write_chunked.go:235-336 | writing a dataset in chunks and assembling it returns the data exactly if the shapes meet the round-trip condition and the reader's limits, and otherwise the read fails |
| ChunkStore.StoreChunks | dataset_write_chunked.go:271-287 | each chunk ends up whole in a fresh region of its own, described by its index entry; it fails exactly when space runs out |
| ChunkStore.LoadChunks | internal/core/dataset_reader.go:321-336 | each collected key is loaded from the address and size it gives; it fails exactly when some size is zero or above 2^30 bytes or some bytes are not in the file |
| ChunkStore.LoadedComplete | internal/core/dataset_reader.go:313-360 | what is loaded through the sorted index is exactly what was stored |
| ChunkStore.WriteThenRead | dataset_write_chunked.go:235-336 | writing chunks and index and reading back through the index returns the data exactly if the shapes meet the round-trip condition and the reader's limits; the write fails only when space runs out |
| Hyperslab.OutputIndexBijective | dataset_read_hyperslab.go:898-913 | on supported selections the output index inverts the enumeration of selected coordinates and is their rank, below the product of Count*Block |
| Hyperslab.SelectionOutputIndex | dataset_read_hyperslab.go:898-913 | the loop computes the row-major number of the per-dimension positions |
| Hyperslab.ExtractRecursive | dataset_read_hyperslab.go:1036-1090 | the counter-driven extractor advances by the elements under its prefix and puts each at its rank |
| Hyperslab.ExtractHyperslab | dataset_read_hyperslab.go:998-1032 | slicing a whole array yields the selected elements in rank order |
| Hyperslab.SlicedAssembledIsSelected | dataset_read_hyperslab.go:998-1090 | slicing the assembled array gives, per output byte, the byte of the owning chunk or zero |
| Hyperslab.ExtractPortionRecursive | dataset_read_hyperslab.go:918-988 | for chunks of any length, writes exactly the output slots of the elements under the current prefix that the chunk owns and its data reach, although it stops early past the chunk |
| Hyperslab.ExtractChunkPortion | dataset_read_hyperslab.go:858-889 | one chunk, however short, changes exactly the slots of the selected elements it owns and its data reach |
| Hyperslab.GenerateRecursive | dataset_read_hyperslab.go:779-795 | adds exactly the coordinates between first and last that extend the prefix |
| Hyperslab.FindOverlappingChunks | dataset_read_hyperslab.go:728-753 | lists exactly the chunk coordinates between those of the first and last selected element |
| Hyperslab.OwnersAreVisited | dataset_read_hyperslab.go:728-753 | the owner of every selected element is between those two, so it is visited |
| Hyperslab.ReadHyperslabChunked | dataset_read_hyperslab.go:644-718 | on every supported selection, for chunks of any lengths, each byte read is the byte of the owning chunk when that chunk is there and its data reach the element, and zero otherwise; with no short chunk that is the selection of the stored array; dead slots stay zero on all selections |
| Hyperslab.FoundWhole | dataset_read_hyperslab.go:955-969 | when every chunk is long enough, what the chunks hold of a selection is the whole selection |
| Hyperslab.DeadSlotExists | dataset_read_hyperslab.go:898-913 | every unsupported selection has an output slot no selected coordinate is mapped to |
| Hyperslab.ReadBothWays | dataset_read_hyperslab.go:644-718 | whenever the whole read succeeds, which is stated exactly with its limits, reading by chunks equals assembling and slicing on every supported selection, and differs on every unsupported one when the data hold no zero byte; also when the whole read fails, the chunks give each byte of a supported selection that they hold, and zero for the others |
| Hyperslab.DenseDataExists | dataset_read_hyperslab.go:644-718 | every grid has readable data without a zero byte, on which each unsupported selection is read wrongly, and the whole read accepts them unless a chunk is too large |
| ChunkNode.PrefixLength | internal/structures/btree_chunk.go:456-523 | whatever the number of entries, all writes stay inside the fixed node buffer |
| ChunkNode.Serialize | internal/structures/btree_chunk.go:456-523 | the buffer holds header, interleaved keys and children, then zeros |
| ChunkNode.PutKey | internal/structures/btree_chunk.go:487-513 | writes one key as size, mask and byte offsets, and nothing behind it |
| ChunkNode.ParseBTreeV1Node | internal/core/btree_v1.go:40-158 | parses a node at any address of any file, with each error case |
| ChunkNode.NodeAccepted | internal/core/btree_v1.go:40-158 | exactly which nodes are read: "TREE" in front and, unless it counts no children, all keys and children it counts in the file and no dimension of size 0 |
| ChunkNode.NodeParsesBack | internal/structures/btree_chunk.go:456-523 | a serialized node parses back to its level, siblings, children and rescaled keys |
| ChunkNode.ImageBytes | internal/structures/btree_chunk.go:456-523 | the image starts with "TREE", node type 1, level, count and siblings, and has room for 65 keys and 64 children |
| ChunkNode.EntryImage | internal/structures/btree_chunk.go:486-523 | key i and the child behind it stand at 24 + i(16 + 8n): chunk size, filter mask, byte offsets, address |
| ChunkNode.KeySurvives | internal/structures/btree_chunk.go:499-513 | a key's coordinates come back with a zero last one if and only if scaling does not wrap; size and mask always do |
| ChunkTree.CompareChunkCoords | internal/structures/btree_chunk.go:541-553 | the loop computes lexicographic comparison |
| ChunkTree.CompareTotal | internal/structures/btree_chunk.go:541-553 | coordinate comparison is a total order: antisymmetric, transitive, zero only on equals |
| ChunkTree.CompareMeans | internal/structures/btree_chunk.go:541-553 | one coordinate comes before another if and only if it is smaller at the first difference |
| ChunkTree.SortEntries | internal/structures/btree_chunk.go:187-190 | the entries are sorted in place to an ordered permutation |
| ChunkTree.GroupSizes | internal/structures/btree_chunk.go:366-374 | a level is cut into as few groups of at most 64 as there can be, group i starting at 64i and every group but the last full; a level of more than one at least halves |
| ChunkTree.Partition | internal/structures/btree_chunk.go:284-291 | cuts a level into consecutive groups of 64 |
| ChunkTree.AllocateNodes | internal/structures/btree_chunk.go:301-309 | reserves disjoint fresh regions for all nodes of a level without touching the file |
| ChunkTree.ChunkBTreeWriter.AddChunkWithSize | internal/structures/btree_chunk.go:144-161 | appends the chunk if its rank is right, else changes nothing |
| ChunkTree.ChunkBTreeWriter.BuildLeafNode | internal/structures/btree_chunk.go:225-260 | the node has one key per entry plus the sentinel one past the last in every dimension |
| ChunkTree.ChunkBTreeWriter.BuildInnerNode | internal/structures/btree_chunk.go:398-414 | key i is the first key below child i and the last key is that of the last child |
| ChunkTree.ChunkBTreeWriter.WriteLeafLevel | internal/structures/btree_chunk.go:282-337 | the leaf level holds the entries in order, is one sibling chain, and leaves the rest of the file alone |
| ChunkTree.ChunkBTreeWriter.WriteInternalLevel | internal/structures/btree_chunk.go:356-431 | a further level keeps the entries, the chains and everything stored, and has at most half as many nodes |
| ChunkTree.InnersFlatten | internal/structures/btree_chunk.go:356-431 | grouping under new parents keeps the entries and every lower level in order |
| ChunkTree.InnersChained | internal/structures/btree_chunk.go:356-431 | every level stays one doubly linked chain after a level is added |
| ChunkTree.InnerLevelOrder | internal/structures/btree_chunk.go:356-431 | a new level changes neither the entries below it nor the chains |
| ChunkTree.LevelFitsByte | internal/structures/btree_chunk.go:339-348 | the level number always fits its byte, since levels halve |
| ChunkTree.ChunkBTreeWriter.BuildMultiLevelTree | internal/structures/btree_chunk.go:278-352 | terminates with one root: a balanced tree of nodes with 1 to 64 children over exactly the entries, all levels chained, stored in disjoint regions |
| ChunkTree.ChunkBTreeWriter.WriteSingleLeaf | internal/structures/btree_chunk.go:205-221 | up to 64 entries are stored as one leaf that is the whole index |
| ChunkTree.ChunkBTreeWriter.WriteToFile | internal/structures/btree_chunk.go:182-201 | the stored index is well formed over a sorted permutation of the added chunks; it fails exactly when there are none or this call runs out of space |
| ChunkIndex.CollectAllChunks | internal/core/btree_v1.go:249-285 | the recursive collection returns the entries below a node, or an error, on any file |
| ChunkIndex.TreeReadsBack | internal/core/btree_v1.go:249-285 | a stored tree of any height collects to its entries in order, rescaled |
| ChunkIndex.ReadBackExact | internal/core/btree_v1.go:249-285 | a collected chunk equals the one added if and only if its offsets do not wrap |
| ChunkIndex.WriteThenCollect | internal/core/btree_v1.go:249-285 | for chunks added in any order, writing the index and collecting it returns a sorted permutation, each exact if and only if its offsets do not wrap; the stored tree is balanced with every level one sibling chain, and its keys bound their children when no coordinates repeat |
| ChunkIndex.NodeKeysBound | internal/structures/btree_chunk.go:356-431 | in a node over distinct coordinates keys strictly increase and bound what lies below each child |
| ChunkIndex.TreeKeysBound | internal/structures/btree_chunk.go:278-431 | the same in every node of the tree |
| ChunkIndex.WrittenBounds | internal/structures/btree_chunk.go:278-431 | what was added in any order without repeated coordinates is stored under keys that bound their children |
| ObjectHeader.PutMessages | internal/core/objectheader_write.go:405-423 | the messages are written back to back at the cursor |
| ObjectHeader.MeasureMessages | internal/core/objectheader_write.go:665-671 | the size loop counts exactly the bytes the messages take |
| ObjectHeader.ObjectHeaderWriter.Size | internal/core/objectheader_write.go:171-187 | Size is the number of bytes of the header image, across all four width classes |
| ObjectHeader.ObjectHeaderWriter.PadToSize | internal/core/objectheader_write.go:80-107 | adds one nil message exactly when the header is too short, reaches the wanted size, and hits it exactly or by at most 4 bytes more for sizes up to 256 |
| ObjectHeader.ObjectHeaderWriter.WriteTo | internal/core/objectheader_write.go:348-440 | stores exactly the header image at the address and returns its size |
| ObjectHeader.WriteContinuationChunk | internal/core/objectheader_write.go:617-659 | stores exactly the block image at the address and returns its size |
| ObjectHeader.ParseMessages | internal/core/objectheader.go:254-309 | the message loop of a header chunk, with its skips and errors, on any file |
| ObjectHeader.MessagesInside | internal/core/objectheader.go:263-309 | a chunk is only read when every byte of it is in the file, and always when one message more would be |
| ObjectHeader.FindContinuations | internal/core/objectheader_v1.go:108-124 | collects the block references of the continuation messages in order |
| ObjectHeader.ParseBlock | internal/core/objectheader.go:352-426 | reads one continuation block and marks its messages |
| ObjectHeader.FollowContinuations | internal/core/objectheader.go:311-341 | the worklist appends each block's messages and queues its references |
| ObjectHeader.ReadObjectHeader | internal/core/objectheader.go:74-158 | reads signature, version, flags, messages and reference count, with each error case; what it gives for every laid-out header is HeaderRoundTrip.ImageReads |
| ObjectHeader.FindRefCount | internal/core/objectheader.go:136-145 | the count is that of the reference count message, else 1 |
| ObjectHeader.RefCountFirst | internal/core/objectheader.go:136-145 | the first message of type 22 with four bytes decides the count; without one it is 1 |
| ObjectHeader.ReferenceExact | internal/core/objectheader_v1.go:108-179 | a message refers to a block if and only if it has type 16, at least 16 bytes and a size that is not zero |
| HeaderRoundTrip.MessagesReadBack | internal/core/objectheader.go:254-309 | written messages are read back in order, those without data dropped |
| HeaderRoundTrip.MainReadsBack | internal/core/objectheader_write.go:348-440 | the main chunk reads back for every chunk-size width when flag bits 0x34 are clear |
| HeaderRoundTrip.StoredRead | internal/core/objectheader.go:263-309 | messages with their own flags, and two bytes of creation order each exactly under flag 0x04, are read in order with places and data, the empty ones dropped, under all flags |
| HeaderRoundTrip.ImageMainReads | internal/core/objectheader.go:184-309 | for every flag byte, the main chunk of a header laid out with 16 bytes of times under 0x20, 4 bytes of limits under 0x10 and a size field of 1, 2, 4 or 8 bytes is read back |
| HeaderRoundTrip.PieceReads | internal/core/objectheader.go:352-426 | a laid-out continuation block is read back over its stated size, under all flags |
| HeaderRoundTrip.PiecesFollowed | internal/core/objectheader.go:311-342 | any chain of laid-out blocks is read in worklist order, under all flags |
| HeaderRoundTrip.ImageReads | internal/core/objectheader.go:74-158 | every version 2 header laid out by the format, with any flags and any chain of continuation blocks, is read as its flags, its messages and its reference count |
| HeaderRoundTrip.WidthHolds | internal/core/objectheader_write.go:348-440 | the size field chosen holds the size, and the next smaller one does not |
| HeaderRoundTrip.FlagsDecide | internal/core/objectheader_write.go:348-440 | all small messages read back under the given flags if and only if bits 0x34 are clear |
| HeaderRoundTrip.BlockReadsBack | internal/core/objectheader_write.go:617-659 | a stored continuation block reads back marked as continued |
| HeaderRoundTrip.ReferenceReadsBack | internal/core/objectheader_write.go:570-600 | an encoded continuation message names the block it was made for |
| HeaderRoundTrip.FollowReadsBack | internal/core/objectheader.go:311-341 | following references of stored blocks yields their messages in worklist order, nested references included |
| HeaderRoundTrip.HeaderReadsBack | internal/core/objectheader.go:184-344 | a header and its blocks read back as the main messages, then the continued ones in worklist order, and the count |
| AttributeCodec.ParseAttributeMessage | internal/core/attribute.go:52-161 | parses attribute messages of every version with their padding rules and errors |
| AttributeCodec.LaidParsesBack | internal/core/attribute.go:52-161 | a laid-out message of any version, each part of versions 1 and 2 filled up to a multiple of 8 with any bytes, is read back from its first k bytes if and only if they reach the end of its dataspace, with as much of its value as they hold |
| AttributeCodec.PaddedExact | internal/core/attribute.go:97-101 | versions 1 and 2 round sizes up to the next multiple of 8, except that sizes above 65528 wrap to 0 |
| AttributeCodec.EncodeAttributeMessage | internal/core/messages_write.go:546-627 | encodes version 3; refuses exactly the empty name |
| AttributeCodec.AttributeParsesBack | internal/core/messages_write.go:546-627 | every attribute within the 16-bit sizes is laid out as version 3 without padding and parses back equal |
| AttributeCodec.InfoParsesBack | internal/core/attribute.go:1068-1132 | an attribute info message parses back to its two addresses |
| AttributeCodec.InfoReads | internal/core/attribute.go:990-1040 | an attribute info message gives its two addresses under all flags, four bytes later under bit 0, and is refused exactly when it is too short for its flags |
| AttributeMessages.ShownReads | internal/core/objectheader.go:74-158 | reading a stored header with its blocks shows exactly their messages |
| AttributeMessages.MeetsFlat | internal/core/objectheader.go:311-341 | blocks of attributes only are met in the order the main chunk refers to them |
| AttributeMessages.InsertUpdates | attribute_write.go:258-318 | adding a new name anywhere is the map update |
| AttributeMessages.ReplaceUpdates | attribute_write.go:258-318 | replacing the value under its name is the map update |
| AttributeMessages.AttrsReplace | attribute_write.go:291-295 | replacing one attribute message replaces one attribute |
| AttributeMessages.NonNilKeeps | attribute_write.go:396-410 | dropping nil messages loses no attribute, no reference and no structure |
| AttributeMessages.FilteredWithin | attribute_write.go:391-408 | the filters keep exactly the messages that are not of type 0, and not of types 0, 12 and 16 |
| AttributeMessages.CountedReadable | attribute_write.go:216-232 | while all attribute messages are readable, counting messages counts attributes |
| AttributeMessages.StructuralKeeps | attribute_write.go:923-942 | what remains after the move has no attribute and no reference |
| AttributeStore.MainRewritten | attribute_write.go:322-339 | rewriting the main header within its allocation keeps the blocks and all other regions |
| AttributeStore.ClearShown | attribute_write.go:322-339 | a rewritten header that runs into no block is shown with the same blocks, wherever it ends |
| AttributeStore.BrokenUnreadable | internal/core/objectheader.go:310-345 | a header that refers to a block without its signature cannot be read |
| AttributeStore.DenseStore.Create | internal/writer/dense_attribute_writer.go:137-160 | dense storage is created in two fresh regions holding the given attributes |
| AttributeStore.DenseStore.Upsert | attribute_write.go:739-841 | the record with the name's hash is replaced, else the attribute is appended; only dense regions change |
| AttributeStore.CountMessages | attribute_write.go:216-233 | counts inline and continued attributes and detects dense storage |
| AttributeStore.FilterMainChunk | attribute_write.go:396-410 | keeps the main chunk's messages other than nil ones |
| AttributeStore.FilterStructural | attribute_write.go:923-942 | keeps the main chunk's messages other than attributes, continuations and nil ones |
| AttributeStore.ParseAttributes | attribute_write.go:869-878 | collects the attributes of header and blocks before the move, or fails if one is unreadable |
| AttributeStore.CollectAttributes | internal/core/attribute.go:425-439 | the reader returns the readable attributes in message order and skips the others |
| AttributeStore.FindNamed | attribute_write.go:273-283 | finds the first message carrying the name |
| AttributeStore.NamedMeansPresent | attribute_write.go:273-283 | a message carries the name if and only if the object has that attribute |
| AttributeStore.MergeAttributes | attribute_write.go:896-921 | merging the new attribute at the transition is the map update |
| AttributeStore.AddInline | attribute_write.go:297-317 | an attribute that fits keeps the header compact, bounded and is the map update |
| AttributeStore.AddBlock | attribute_write.go:350-389 | moving it into a fresh block behind a continuation message that fits is the map update |
| AttributeStore.ReplaceInline | attribute_write.go:291-295 | replacing without blocks keeps the header compact and is the map update |
| AttributeStore.ReplaceRepeats | attribute_write.go:291-295 | replacing while there are blocks repeats the attributes of the blocks, so the result is no map |
| AttributeStore.MoveToDense | attribute_write.go:859-1022 | the header after the transition always fits its allocation and refers to dense storage only |
| AttributeWriter.GroupWriter.constructor | group_write.go:237-288 | a freshly written group header has no attributes and satisfies the invariant |
| AttributeWriter.GroupWriter.ReadAttributes | internal/core/attribute.go:408-451 | reading the file returns exactly the attributes of the recorded header, blocks and dense storage, wherever the header lies |
| AttributeWriter.GroupWriter.WriteAttribute | attribute_write.go:205-248 | a successful write is the map update of the attributes read back if and only if it neither rewrites over blocks nor meets another name in dense storage; a new name goes inline if it fits the allocation, else into a block if the 16-byte reference fits, else everything becomes dense, and from 8 attributes on always; a rewritten name becomes dense if and only if there are 8; a rewrite that runs into a block leaves the object unreadable unless all signatures survive; a failed write changes no attribute and no storage; it fails only for an empty name or when this call runs out of space; all stores stay in own or fresh regions unless a rewritten header outgrows its allocation |
| AttributeWriter.GroupWriter.WriteCompact | attribute_write.go:258-318 | the same for the inline path, replacing or adding, with the place a new attribute goes to |
| AttributeWriter.GroupWriter.ReplaceExisting | attribute_write.go:291-295 | replacement writes exactly the message list with the new value; it reads back as the map update if and only if there are no blocks, unless it runs into one, which makes the object unreadable up to an accident; it changes only the header's region when the list fits |
| AttributeWriter.RewriteShown | attribute_write.go:291-339 | what a rewrite leaves in the file, by whether it fits, whether there are blocks, and whether it runs into them |
| AttributeWriter.StaysInside | attribute_write.go:322-339 | a header write stays inside its allocation whatever the file holds if and only if the header is no larger |
| AttributeWriter.LongerValueOutgrows | attribute_write.go:291-295 | a 256-byte header and a longer value for its attribute whose rewrite does not fit |
| AttributeWriter.GroupWriter.AddNew | attribute_write.go:297-317 | an addition goes inline if it fits and on to the continuation path otherwise; either way the update holds and the place is stated |
| AttributeWriter.GroupWriter.AddViaContinuation | attribute_write.go:350-389 | the same through a block if the reference to it fits, through dense storage otherwise |
| AttributeWriter.GroupWriter.TransitionToDense | attribute_write.go:859-1022 | all attributes move, merged with the new one, in one step; the header keeps its structural messages and ends with an info message of type 15 |
| AttributeWriter.GroupWriter.WriteDense | attribute_write.go:739-841 | a write to dense storage is the map update if and only if the record found by hash is not another name's |
| AttributeWriter.PutBlock | attribute_write.go:356-370 | a continuation block is stored whole in a fresh region |
| AttributeWriter.BlockLinked | attribute_write.go:372-388 | linking the block keeps header, blocks and storage pairwise disjoint and readable |
| AttributeWriter.UpsertUpdates | internal/structures/btreev2_write.go:259-274 | replacing the record found by hash is the map update if and only if it carries the same name |
| AttributeWriter.CollidingNames | internal/structures/btreev2_write.go:259-274 | of two names with one hash, the second write takes the first attribute's place |
| AttributeWriter.CreateGroup | group_write.go:215-289 | the padded 256-byte header of a new group is readable, bounded and empty of attributes: one message of type 17 and padding |
| AttributeWriter.Session | attribute_write.go:205-248 | over every run of fresh names on a new group, failures included, exactly the attributes written are read back; once storage is dense this needs distinct hashes; storage is dense at the end exactly as the sizes written decide, always after more than eight attributes, and never with at most eight that fit together |
| AttributeWriter.FillingStep | attribute_write.go:306-317 | what fits a header of 256 bytes: 245 bytes of messages, 4 more than its data for an attribute, 20 for a reference to a block |
| AttributeWriter.StepDescribed | attribute_write.go:205-248 | one write takes the header from one filling to the next |
| AttributeWriter.FillingBounds | attribute_write.go:15-20 | the ninth attribute always moves a group to dense storage; eight that fit together never do |
| GlobalHeap.Collection.AddObject | global_heap_write.go:254-274 | appends the object under the next index; used plus free space stays the size and at most 257 objects fit |
| GlobalHeap.PutObject | global_heap_write.go:179-206 | writes index, size and padded data of one object at the cursor |
| GlobalHeap.PutObjects | global_heap_write.go:179-206 | the objects end exactly at the used space |
| GlobalHeap.Collection.Encode | global_heap_write.go:151-232 | the image is header, objects, and a free-space object reaching the end when there is room |
| GlobalHeap.GlobalHeapWriter.CreateNewHeap | global_heap_write.go:97-129 | a new collection lies in a fresh region and has room for the object and 32 bytes more: 4096 bytes if that is enough, else the next multiple of 4096 |
| GlobalHeap.GlobalHeapWriter.Flush | global_heap_write.go:132-147 | afterwards every collection ever made is on disk |
| GlobalHeap.GlobalHeapWriter.WriteToGlobalHeap | global_heap_write.go:61-94 | the returned ID names the bytes and all earlier IDs keep naming theirs; with room in the current collection the object becomes its next one and the file is not touched, otherwise it is the first of a new region; it fails only for want of space |
| GlobalHeap.HeldElsewhere | global_heap_write.go:132-147 | flushing one collection leaves all others as stored |
| GlobalHeapReader.ReadGlobalHeapCollection | internal/core/globalheap.go:51-172 | reads a collection at any address of any file, with each error case |
| GlobalHeapReader.ScanObjects | internal/core/globalheap.go:109-169 | the scan stops at free space and skips by padded size |
| GlobalHeapReader.GetObject | internal/core/globalheap.go:175-182 | returns the first object with the index, else an error |
| GlobalHeapReader.Resolve | internal/core/attribute.go:358-390 | a stored reference resolves through its collection to the object's bytes |
| GlobalHeapReader.NullReference | internal/core/attribute.go:358-379 | fewer than 16 stored bytes are refused; a null address gives the empty value in every file; any other address has to be that of a readable collection |
| GlobalHeapReader.ReadVariableLengthString | internal/core/attribute.go:358-402 | the string is the object without the zero bytes at its end |
| GlobalHeapReader.TrimmedExact | internal/core/attribute.go:396-399 | stripping loses nothing exactly when the bytes do not end in zero |
| GlobalHeapReader.ReferenceParsesBack | global_heap_write.go:240-246 | an encoded ID is its length, address and index in 4, 8 and 4 bytes and parses back to address and index |
| GlobalHeapReader.ImageLaid | global_heap_write.go:151-237 | a collection is stored as "GCOL", version 1 and size, then each object as index, length and data in steps of 8 bytes |
| GlobalHeapReader.ObjectParsesBack | internal/core/globalheap.go:109-169 | one written object is scanned as itself, then the scan goes on behind it |
| GlobalHeapReader.TailParsesBack | internal/core/globalheap.go:109-169 | the unused end of a collection adds no object, and the marker spans it exactly |
| GlobalHeapReader.CutRefused | internal/core/globalheap.go:51-172 | a collection cut off inside the data of any object is refused |
| GlobalHeapReader.ScanFrom | internal/core/globalheap.go:109-169 | from any object on, the scan of an image finds the rest |
| GlobalHeapReader.CollectionReadsBack | internal/core/globalheap.go:51-172 | a stored collection reads back as its objects numbered from 1 |
| GlobalHeapReader.NamedResolves | internal/core/globalheap.go:175-182 | once flushed, an ID that names bytes resolves to them |
| GlobalHeapReader.Session | global_heap_write.go:61-147 | over every run of writes, flushes and other allocations, after a final flush every ID returned resolves to its bytes, and as a string to them if and only if they do not end in zero |
| Lzf.CopyBackBytes | internal/core/filterpipeline.go:418-422 | in a back copy each new byte equals the one offset earlier, overlap included |
| Lzf.Decompress | internal/core/filterpipeline.go:358-427 | the loop refines a segment-by-segment reading, with each truncation and offset error |
| Lzf.TokenDecodes | internal/core/filterpipeline.go:358-427 | an encoded token is read back as itself from any longer input |
| Lzf.TokenBits | internal/writer/filter_lzf.go:197-239 | the bits of an encoded token: length less 2 in three bits or less 9 in a third byte, distance less 1 in thirteen, literal count less 1 |
| Lzf.SegmentEncodes | internal/core/filterpipeline.go:358-427 | every segment read is the encoding of its token |
| Lzf.StreamDecodes | internal/core/filterpipeline.go:358-427 | decompressing the serialization of any valid token list gives its expansion |
| Lzf.DecodesFromStream | internal/core/filterpipeline.go:358-427 | every input that decompresses is the serialization of a valid token list with that expansion |
| Lzf.AppendLiteral | internal/writer/filter_lzf.go:197-212 | literals of any length are cut into runs of at most 32 that expand to them |
| Lzf.AppendBackref | internal/writer/filter_lzf.go:217-239 | appends the short or long form of the back-reference |
| Lzf.MatchLength | internal/writer/filter_lzf.go:135-153 | the match is genuine, at most 264 long, and maximal |
| Lzf.MatchCopies | internal/writer/filter_lzf.go:144-156 | copying back over a match reproduces the input, overlap included |
| Lzf.CompressTokens | internal/writer/filter_lzf.go:98-181 | the output serializes a valid token list whose expansion is the input, at a cost of at most 33 bytes for every 32 |
| Lzf.RoundTrip | internal/writer/filter_lzf.go:98-181 | decompressing the compressed input returns it, for every input |
| Shuffle.ApplyFilter | internal/writer/filter_shuffle.go:72-95 | the output is the byte transpose of the bytes the 32-bit length counts, or all bytes untouched when it is 0; other lengths than whole elements are refused |
| Shuffle.Unshuffle | internal/core/filterpipeline.go:262-290 | the inverse transpose, refused exactly without parameters, for empty data or partial elements |
| Shuffle.TransposedTwice | internal/core/filterpipeline.go:262-290 | transposing back recovers every buffer |
| Shuffle.TransposedAt | internal/writer/filter_shuffle.go:72-95 | byte b of element i goes to place b * n + i |
| Shuffle.RoundTrip | internal/writer/filter_shuffle.go:72-95 | what the writer stores the reader recovers for every non-empty buffer below 2^32 bytes; what happens to the empty and to longer buffers |
| Compound.ParseDatatypeMessage | internal/core/datatype.go:97-161 | parses a datatype message from the front of any bytes, terminating on nested compounds; every class without a length of its own, and every compound that cannot be measured, takes all remaining bytes |
| Compound.MessageParts | internal/core/datatype.go:97-161 | class, version, bit field and size byte by byte, and which bytes become properties, for every class: 4 for integers and bit fields, 12 for floats, 2 for times, the members of a version 3 compound that parses, all that is left otherwise; cut at the end of the data |
| Compound.MeasuredIffParsed | internal/core/datatype.go:48-94 | a compound can be measured if and only if it has version 3 and its members parse, and both end at the same byte |
| Compound.CalculateCompoundPropsLen | internal/core/datatype.go:48-94 | measures a compound's properties member by member, or fails, on any bytes |
| Compound.ParseCompoundV3 | internal/core/datatype_compound.go:127-179 | parses the members of a version 3 compound, or fails, on any bytes |
| Compound.MessageCut | internal/core/datatype.go:97-161 | parsing depends only on the bytes the result accounts for |
| Compound.MembersCut | internal/core/datatype.go:48-94 | measuring and parsing members agree on the length and depend on no byte behind it |
| Compound.MeasuredParses | internal/core/datatype.go:48-94 | on arbitrary bytes, if the measure is n then parsing the first n bytes succeeds and consumes all of them |
| Compound.ParsedCompoundIsWhole | internal/core/datatype.go:97-161 | a parsed compound's properties are exactly its members |
| Compound.NumberSelfDelimiting | internal/core/datatype.go:97-161 | a number type is recovered from any longer string if and only if it has its class's property length |
| Compound.FieldsParseBack | internal/core/datatype_compound_write.go:39-131 | laid-out fields are parsed and measured as written, at any offset |
| Compound.FieldParts | internal/core/datatype_compound_write.go:88-128 | a field is its name, a zero byte, its byte offset in 4 bytes and its datatype |
| Compound.CompoundParsesBack | internal/core/datatype_compound_write.go:39-131 | an encoded compound at the front of any longer string parses to its fields and exact length |
| Compound.CompoundExact | internal/core/datatype_compound.go:127-179 | any bytes that parse as members are the encoding of those members: encoding inverts parsing on all inputs |
| Compound.MessageExact | internal/core/datatype.go:97-161 | what any message is parsed to encodes to the bytes it was parsed from |
| Compound.CompoundSelfDelimiting | internal/core/datatype_compound_write.go:39-131 | a compound of self-delimiting members is self-delimiting, so nesting goes on |
| Compound.EncodeCompoundDatatypeV3 | internal/core/datatype_compound_write.go:39-131 | refuses exactly empty field lists, empty names and zero size; else produces the message bytes |
| Compound.CreateCompoundTypeFromFields | internal/core/datatype_compound_write.go:269-298 | succeeds exactly on contiguous fields and yields a type that parses back to them |
| Compound.TreeParsesBack | internal/core/datatype_compound_write.go:39-131 | a type of any nesting depth is encoded, parsed and opened level by level to itself |
| LocalHeap.GetString | internal/structures/localheap.go:104-119 | the string from the offset to its terminator, or an error |
| LocalHeap.MeasureUsed | internal/structures/localheap.go:310-348 | the reload scan finds the end of the last string |
| LocalHeap.UsedFacts | internal/structures/localheap.go:310-348 | the used part ends in a terminator and only zeros follow |
| LocalHeap.AddedReads | internal/structures/localheap.go:172-197 | the added string reads back at its offset and no earlier string changes |
| LocalHeap.GrownReads | internal/structures/localheap.go:287-295 | growing the heap keeps every string at its offset and uses no space |
| GroupLinks.CompareTotal | group_write.go:480-486 | name comparison is a total order with the empty name least |
| GroupLinks.CompareMeans | group_write.go:480-486 | one name comes before another if and only if it is a proper prefix of it or smaller at the first difference |
| GroupLinks.SortEntriesByName | group_write.go:480-498 | sorts to a permutation ordered by resolved names, the new name included, and leaves entries that are in that order alone |
| GroupLinks.BTreeNode.AddKey | internal/structures/btree_group.go:198-210 | appends key and child until 33 keys, then refuses |
| GroupLinks.BTreeNode.Write | internal/structures/btree_group.go:215-278 | stores the first 33 keys and 32 children and the number of children added |
| GroupLinks.LeafSizes | group_write.go:387-392 | all leaves but the last hold 8, with as few leaves as possible but at least one; up to 256 links need at most 32 leaves |
| GroupLinks.GatheredAll | group_write.go:359-373 | the leaves concatenated are the entries |
| GroupLinks.KeysBound | group_write.go:412-436 | each name in leaf i is above key i and at or below key i+1 |
| GroupTable.Group.constructor | group_write.go:139-182 | a new group has no links and satisfies the invariant |
| GroupTable.Group.ReadTree | group_write.go:502-563 | returns the children the node counts, null ones skipped and slots past the node taken from the bytes behind it, or fails where the file ends |
| GroupTable.Group.CollectEntries | group_write.go:365-373 | gathers the entries of all leaves, or fails on a missing one |
| GroupTable.Group.ValidReads | group_write.go:359-373 | a group of at most 256 links reads back as its entries |
| GroupTable.Group.OverflowReads | group_write.go:502-563 | what a group with 33 leaves reads back as, by what the file holds behind its node |
| GroupTable.Group.OverflowLoses | internal/structures/btree_group.go:253-273 | the links without a slot are the last ones, those with the largest names if all are in order; everything reads back if and only if the bytes behind the node name a leaf with exactly those |
| GroupTable.Group.WholeIff | internal/structures/btree_group.go:253-273 | a group is read back whole if and only if it has at most 256 links or that accident happens |
| GroupTable.Group.Resolve | group_write.go:787-841 | on any tree, a found name is a link of the leaves that can be read, and a miss means there is none |
| GroupTable.Group.ExtendLeaves | group_write.go:395-402 | adds fresh leaves up to the number needed |
| GroupTable.Group.BuildTree | group_write.go:406-441 | the rebuilt node covers the leaves with the right keys, or is refused beyond 33 leaves |
| GroupTable.Group.WriteLeaves | group_write.go:448-467 | the leaves hold the entries eight by eight |
| GroupTable.Group.Rebuild | group_write.go:394-467 | tree and leaves hold the entries eight by eight over fresh or reused leaves; it fails exactly beyond 33 leaves or when space runs out |
| GroupTable.Group.LinkToParent | group_write.go:329-475 | succeeds exactly if the group has its heap, the name fits it or one of twice the size, the group can be read, at most 33 leaves are needed and space lasts; the link then joins what was read, in name order if the name fit and at the end if the heap grew; the whole table reads back if and only if there were fewer than 256 links; a failure changes nothing but may lose the heap, exactly when that was moved |
| GroupTable.Group.MoveAndAdd | group_write.go:584-618 | the heap address changes before anything else can fail, and in the object header only for the root group |
| GroupTable.Group.AddLink | group_write.go:357-475 | from what was read to what is there: links, order, leaves and names after one link |
| GroupTable.Group.HeaderShows | group_write.go:584-596 | through its object header a group shows exactly the names added before its heap moved away from that header |
| GroupTable.AddAndSort | group_write.go:375-385 | adding a name to the heap or a grown one and sorting by the names that can be resolved keeps all links; they are in order, or the new one is last |
| GroupTable.Group.UnlinkFromParent | group_write.go:858-998 | removes the first link of that name among those that can be read and returns its target, exactly if there is one and space lasts, and keeps the order of the others; an overflowed group over a null address becomes valid |
| GroupTable.SortedAgain | group_write.go:329-475 | adding name and entry keeps names and all other links |
| GroupTable.OrderedAgain | group_write.go:480-498 | sorting by resolved names gives name order once the new name is in the heap |
| GroupTable.AtTheEnd | group_write.go:600-618 | against a heap without readable names the old entries keep their order and the new one goes last |
| GroupTable.GrowthUnsettles | group_write.go:600-618 | two links to a new group of which the second makes its 4096-byte heap grow and ends out of order |
| GroupTable.DistinctAfter | group_write.go:329-475 | a new name keeps the names distinct |
| GroupTable.StrictlySorted | group_write.go:480-486 | with distinct names the concatenated leaves strictly increase |
| GroupTable.RemovedEntry | group_write.go:858-998 | dropping an entry keeps order and drops exactly its link |
| GroupTable.Run | group_write.go:329-475 | over every run of links and unlinks, up to the 257th link or the loss of the heap: the leaves hold exactly the current links, all but the last full; they are in order if the run is settled, and without unlinks only then; in strict order under bracketing keys if each added name was new; and the file shows exactly the names older than the heap's move |
| GroupTable.BracketedLinks | group_write.go:412-436 | in a valid group with distinct names in order every name of a leaf lies above the key before it and not above the key after it |
| HardLinks.ParsePath | group_write.go:296-313 | parent and name put together are the path, up to a trailing slash, and the name has no slash |
| HardLinks.LinkedFile.Resolve | group_write.go:787-841 | finds the first entry of the parsed path below a known parent that can be read, or none |
| HardLinks.LinkedFile.WriteRefCount | link_write.go:162-200 | the stored count becomes the new one, except that 1 is never written as a message |
| HardLinks.LinkedFile.CreateDataset | dataset_write.go:903-1028 | which outcome it has, by path, parent and room on entry; the header is there in each case but a bad path, at an address that may have been freed before, and counts stay exact if and only if it is linked without displacing an entry; then a path that was free resolves to the new address, and all other paths resolve to what they did |
| HardLinks.LinkedFile.CreateHardLink | link_write.go:54-104 | which outcome it has, by paths, entries, groups and room on entry; counts stay exact if and only if the call does not leak, decided from the same; unless an entry is displaced, a link path that was free resolves to what the target path did, and all other paths resolve to what they did |
| HardLinks.LinkedFile.LinkTo | link_write.go:69-104 | the increment and link steps once the target is known, with each outcome decided on entry, and what paths resolve to afterwards |
| HardLinks.LinkedFile.Delete | delete_write.go:44-104 | which outcome it has, an unreadable parent included; removes the first entry of the path; the object is freed exactly when its count was 1, and then no entry names it; exactness of counts is unchanged; the path resolves to nothing if it had one entry, and all other paths to what they did |
| HardLinks.LookupAppend | group_write.go:787-841 | a new entry is found under its parent and name unless they are taken, and under nothing else |
| HardLinks.LookupWithout | group_write.go:858-998 | an entry taken out leaves every other path alone, and its own to the next entry of the name |
| HardLinks.AddedResolves | link_write.go:54-104 | a path that was free resolves to the object linked there, and all others to what they did |
| HardLinks.RemovedResolves | delete_write.go:44-104 | the path removed resolves to nothing if it had one entry, and all others to what they did |
| HardLinks.LinkOutlives | link_write.go:54-104 | an object linked under a second path and deleted by its first is still found under the second, at the count it had |
| HardLinks.CountWithout | delete_write.go:44-104 | removing an entry lowers its target's number of links by one and no other |
| HardLinks.CallKeeps | delete_write.go:44-104 | any call keeps every count at or above the entries; counts are exact afterwards if and only if they were and the call does not leak |
| HardLinks.CreatedKeeps | dataset_write.go:1005-1028 | a new object counts 1, which is exact if and only if its entry was added and displaced none |
| HardLinks.LinkedKeeps | link_write.go:69-104 | increment and entry together keep exactness; a missing parent or a displaced entry breaks it, and a refused entry does so if and only if the count was 1 |
| HardLinks.DisplacedKeeps | group_write.go:329-475 | an entry that an overflowing group drops leaves its object one count too high |
| HardLinks.RemovedKeeps | delete_write.go:44-137 | removing an entry and decrementing keeps the accounts and exactness, and nothing points at a freed object |
| HardLinks.RunKeeps | delete_write.go:44-104 | after any run of calls, with header addresses reused after deletions, counts are exact if and only if no call leaked in the state it met |
| HardLinks.Run | delete_write.go:44-104 | the same for the file itself, whenever no new header is put on one in use: counts never fall below the entries, and are equal if and only if no call leaked |
| LinkCount.EnsureRefCountMessage | link_write.go:180-204 | overwrites the first count message, or adds one at the end |
| LinkCount.WithCountFacts | link_write.go:180-204 | setting the count sets what is read and takes eight bytes exactly when there was no count message |
| LinkCount.InFileReads | internal/core/objectheader.go:135-146 | a stored header reads back as its messages and their count |
| LinkCount.WriteCount | link_write.go:162-177 | the header in the file then has the new count, except that a link never sets a count of 1, and all other messages; nothing outside its new size changes |
| LinkCount.StaysInPlace | link_write.go:162-177 | the rewritten header fits the place of the old one if and only if that had a count message or none is added, and is otherwise at least eight bytes longer |
| LinkCount.FreeHeader | delete_write.go:170-174 | the bytes freed are those the stored header takes, which keeps the allocator whole exactly when that block was handed out |
| LinkCount.AppliedFacts | delete_write.go:109-136 | over any writes of counts only the first that sets one changes the size |
| LinkCount.Lifetime | delete_write.go:44-174 | from creation through any count writes to deletion, no write leaves the header's region and the allocator stays whole, if and only if the header had a count message from the start or no write sets one |
| Allocator.SpaceAllocator.constructor | internal/writer/allocator.go:82-87 | a new allocator owns nothing |
| Allocator.SpaceAllocator.BestFit | internal/writer/allocator.go:131-140 | picks a smallest free block that is large enough, or none exists |
| Allocator.SpaceAllocator.Allocate | internal/writer/allocator.go:123-170 | when some free block is large enough, the address is the offset of a free block that is, no larger than any other that is, whose front is handed out while all other free blocks stay; otherwise it is the old end of file; a fresh region disjoint from all live ones, and allocated and free blocks still tile the file |
| Allocator.FreshRegion | internal/writer/allocator.go:123-170 | what the allocator hands out meets the contract the rest of the model relies on: a new address, disjoint from every region |
| Allocator.SpaceAllocator.Reuse | internal/writer/allocator.go:142-158 | the front of the chosen block is handed out, its rest stays free, and so do all other free blocks |
| Allocator.SpaceAllocator.Free | internal/writer/allocator.go:369-402 | refuses exactly zero bytes; allocated and free blocks still tile the file, free neighbours merged and the end of file cut back, if and only if the block was handed out and not yet freed; only that block leaves the allocated ones |
| Allocator.SpaceAllocator.AddToFreeList | internal/writer/allocator.go:406-436 | sorted insertion, then merging with the next and the previous block where they touch |
| Allocator.SpaceAllocator.ShrinkTrailing | internal/writer/allocator.go:441-452 | free space at the end of the file is given back, which keeps a tiling |
| Allocator.Split | internal/writer/allocator.go:149-153 | splitting a free block keeps the tiling |
| Allocator.Merge | internal/writer/allocator.go:419-435 | merging touching free blocks keeps the tiling |
| Allocator.GiveBack | internal/writer/allocator.go:406-436 | moving a block to the free list keeps the tiling |
| Allocator.JoinedKeeps | internal/writer/allocator.go:406-436 | joining an allocated block to the free list keeps the tiling and a gap between any two free blocks |
| Allocator.JoinedBreaks | internal/writer/allocator.go:382-401 | joining anything else leaves no tiling |
| Allocator.EndBreaks | internal/writer/allocator.go:391-397 | cutting the file in front of anything but its last allocated block leaves no tiling |
| Allocator.CutTail | internal/writer/allocator.go:441-452 | cutting a trailing free block keeps the tiling |

## Left out

- AttributeWriter.GroupWriter.WriteAttribute: attributes of 65536 bytes or more, whose size field wraps; writes after a rewrite that outgrew the header's region or repeated the attributes of blocks, because the invariant ends there; and what is read when a rewrite runs into a block but all signatures happen to survive.
- AttributeWriter.GroupWriter.WriteCompact: the same as WriteAttribute.
- AttributeWriter.GroupWriter.ReplaceExisting: the same as WriteAttribute.
- AttributeStore.DenseStore.Upsert: the fractal heap and the version 2 B-tree are modelled by their contract, with the name hash, their bytes and their capacity as parameters, because only the confinement of their writes and the record lookup matter to the attribute map.
- AttributeStore.DenseStore.Create: the same contract as Upsert.
- AttributeCodec.ParseAttributeMessage: errors of the datatype and dataspace inside the message and the size limit are missing, because both parts are carried as bytes.
- ObjectHeader.ReadObjectHeader: big-endian and version 1 headers are errors, because only version 2 little-endian headers are written.
- GlobalHeapReader.ScanObjects: object sizes of 2^63 and more are errors, as for the collection.
- ChunkIndex.CollectAllChunks: a depth parameter stands for unbounded recursion, because a file may hold a cyclic index; it suffices for every index the writer makes.
- ObjectHeader.FollowContinuations: a budget parameter stands for the unbounded worklist, because a file may hold cyclic continuations; it suffices for every acyclic chain.
- HardLinks.LinkedFile.CreateHardLink: limited to fewer than 2^32 - 2 calls, because the count is 32 bits wide; hard links to groups and deleting groups are not modelled; how a group answers is a parameter that may depend on the whole history, so the results hold for every behaviour GroupTable allows, except that a foreign leaf behind an overflowed node adds no entries; of two entries of one path the earlier one is taken.
- GroupTable.Group.LinkToParent: names are not empty; the bytes behind the node do not change during a call; bytes that are not yet written never form a heap; the root header always holds its symbol table message in its first 128 bytes; after a 257th link, when the bytes behind the node name a foreign leaf, only the entries taken over are stated.
- GlobalHeapReader.ReadGlobalHeapCollection: sizes of 2^63 and more are treated as errors, because Go's conversion to int is not modelled beyond that.
- Shuffle.ApplyFilter: needs a non-zero element size, because none is ever configured.
- ChunkTree.ChunkBTreeWriter.WriteToFile: fewer than 2^63 chunks, because a Go slice holds no more.
- ChunkTree.SortEntries: the library sort is modelled by an insertion sort, because only its being an ordered permutation matters; the same for GroupLinks.SortEntriesByName, which also relies on the library leaving a sorted slice alone.
- 64-bit wrap-around of file addresses and of byte offsets other than chunk keys; the allocator refuses sizes beyond 2^63.
- Filters during chunk input and output are the identity; zlib, bzip2, SZIP and Fletcher32, and what happens after a failed optional filter, are not part of this model.
- The text keys of the chunk map are modelled by the coordinate tuples they spell.
- Contiguous and compact hyperslab paths, and FindChunk in internal/core/btree_v1.go:162-193, which do not refine the same meaning.
- Big-endian files, 4-byte offsets and lengths, and version 1 object headers.
- The header checksum is a parameter: the reader does not check it.
- Version 1 and 2 compounds in the encoder, and members of variable length such as strings in the middle of a compound.
- Symbol table nodes and the group B-tree node are modelled as parsed blocks, not bytes; group metadata bookkeeping beyond their addresses is left out.
- LinkCount.WriteCount: headers without continuation blocks, and count messages of at least four bytes, because the writer makes no others.
- The cap of 10^9 on the product of the counts of a selection, which only refuses selections.
- Freeing of data blocks on delete, soft and external links, and lazy, incremental or smart rebalancing.
- Input and output errors, buffer pools and error texts.

# delharc: a verified model

This project models the decoding side of an LHA/LZH archive library and proves what its data structures and decoders
promise. It follows the library's own layers:

* **Adaptive Huffman tree** of `-lh1-` (`DynTree*.dfy`, `DynHuffTree.dfy`, `CodeTrees.dfy`). The tree is a flat array of
  nodes in order of falling counts, with sibling pairs adjacent, parent indices, an index of leaves, and a pool of
  frequency groups with one leader each. `DynTree.Valid` is the whole invariant; `DynTree.Walking` is what is left of it
  in the middle of an update. The class `DynHuffTree` changes arrays in place and is proved against functions on tree
  values; the lemmas show that those functions keep the invariant over all runs, that codes read back, that every
  tree is an optimal prefix code for its current counts, what each step does to every node, and that a rebuild gives
  the only tree with halved counts, the old order of leaves and ties broken as the code breaks them.
* **Static canonical Huffman tree** (`StaticTree.dfy`, `CanonicalCode.dfy`, `HuffTree.dfy`). The tree is described row by
  row; building it succeeds exactly for tables that meet Kraft's equality, and reading it is decoding the canonical code
  of section 3.2.2 of RFC 1951.
* **Bit reader** (`Bits.dfy`, `BitStream.dfy`): a word with a marker bit, refilled from the source, against the plain list
  of bits.
* **Ring buffer and LZ decoders** (`RingBuf.dfy`, `Lz.dfy`, `LzCopy.dfy`, `Lh1Decoder.dfy`, `Lhv2Format.dfy`,
  `Lhv2Decoder.dfy`, `LzsDecoder.dfy`, `Lz5Decoder.dfy`). `Lz.Fill` is a decoder with unbounded history that can be
  interrupted anywhere; `Lz.Execute` carries out whole commands. Each decoder class refines `Fill` over its own
  format, so the sizes of the caller's buffers cannot be seen in the output. `Lhv2Writing.dfy`, `Lh1Writing.dfy`,
  `LzsWriting.dfy` and `Lz5Writing.dfy` write the formats and prove that any stream written decodes to exactly its
  commands. `Formats.dfy` states the formats in numbers: windows, table sizes, ring slots, and which bits say what.
* **Headers** (`Header.dfy`, `HeaderFormat.dfy`, `HeaderParser.dfy`, `HeaderWriting.dfy`, `HeaderBytes.dfy`,
  `HeaderLengths.dfy`): `HeaderFormat.ParseHeader` says which header plain bytes begin with; the parser finds exactly that
  one, or fails exactly if there is none. Lemmas say what an accepted header promises, at which byte each of its fields
  lies, that the headers accepted are exactly those that can be written, and which stated lengths are reliable.
* **Sessions, archives and checksums** (`StubIo.dfy`, `Crc16.dfy`, `Decoders.dfy`, `Session.dfy`, `Archive.dfy`,
  `ArchiveWriting.dfy`): the decoder that a header selects, byte accounting across files, the extraction of whole
  archives and of any archive that was written, and the table-driven CRC-16 against bit-by-bit division.

Values stand for machine words where a width matters: bit-buffer words and ring indices are natural numbers cut to their
width by `Bits.Low`; checksums are 16-bit vectors. The byte source is a sequence of bytes with a position, and the
bit reader's word width is a parameter of at least 32 bits. The adaptive tree is parametrised by its number of leaves
(2 to 16384); the lh1 decoder uses 314.

Method contracts state outcomes on success and on failure. After a decoder has failed, the contracts keep
only what the library relies on: the end of the file's data in the source stays where it was.

Places where the code and its documentation differ, modelled as the code does it:

* The documentation of `LhaHeader::read` says that all length fields are validated. The length that levels 2 and 3 state for
  the whole header is not always the real one: level 2 may state two bytes less, and at level 3 the stated length is
  only an upper limit (less two), or none at all if it is zero. `HeaderLengths.ShorterThanStated` is a header of 32 bytes
  that states 40 and is accepted. `HeaderLengths.WhichLengthsAreExact` gives the stated lengths for which every accepted
  header is as long as it states: at level 3 those from 1 to 32, at level 2 those below 30 and the multiples of 256, and no
  others. `HeaderLengths.WhenAsStated` says of each single accepted header when it is. At levels 0 and 1 the stated length
  of the fields is always the real one (`HeaderFormat.ParsedIsAccepted`).
* The documentation of `HuffTree::build_tree` rejects tables of at least half the largest index; the code accepts exactly
  half (`HuffTrees.HuffTree.BuildTree`), and such a table can be complete (`HuffTrees.LargestTableIsComplete`).
* The documentation of `BitRead::read_bits` says that it panics if more bits are requested than the type can hold; the code
  returns a decompression error (`BitStreams.BitStream.ReadBits`).

## Model

| member | source | states |
|---|---|---|
| TreeEntries.LeafIsUnpacked | src/statictree/entry.rs:17-41 | any 16-bit leaf value survives packing, but for its top bit, which is dropped |
| TreeEntries.BranchIsUnpacked | src/statictree/entry.rs:22-41 | a branch packs exactly for indices up to the largest, and unpacks to the same index |
| TreeEntries.WordIsPacked | src/statictree/entry.rs:30-41 | every 16-bit word is the packing of the one entry it unpacks to |
| DynHuffTrees.GroupPool.Reset | src/decode/lhv1/dyntree.rs:82-88 | all group ids are free again, in ascending order |
| DynHuffTrees.GroupPool.Allocate | src/decode/lhv1/dyntree.rs:90-101 | the first free id is handed out and no other state changes |
| DynHuffTrees.GroupPool.Free | src/decode/lhv1/dyntree.rs:104-114 | the id becomes the first free one and no other state changes |
| DynHuffTrees.DynHuffTree.constructor | src/decode/lhv1/dyntree.rs:209-262 | for every number of leaves the level-by-level loops build the one tree that grows pair by pair from equal leaves, and it is valid |
| DynHuffTrees.DynHuffTree.PromoteToLeader | src/decode/lhv1/dyntree.rs:357-388 | the entries of the node and of its group's leader are exchanged in place, with the links and the leaf index of both; nothing else moves, and a leader stays where it is |
| DynHuffTrees.DynHuffTree.IncrementFrequency | src/decode/lhv1/dyntree.rs:391-424 | incrementing and regrouping in place is the same step on tree values; the old parent is returned |
| DynHuffTrees.DynHuffTree.IncrementForValue | src/decode/lhv1/dyntree.rs:426-440 | the whole walk from a leaf to the root leaves a valid tree, the one `Update` describes |
| DynHuffTrees.DynHuffTree.RebuildTree | src/decode/lhv1/dyntree.rs:264-341 | the nested in-place loops leave a valid tree, the one `Rebuild` describes |
| DynHuffTrees.DynHuffTree.RebuildGroups | src/decode/lhv1/dyntree.rs:325-340 | the regrouping loop assigns the groups that `Regroup` describes and leaves the leaf index alone |
| DynHuffTrees.DynHuffTree.ReadEntry | src/decode/lhv1/dyntree.rs:442-459 | reads a symbol exactly when the bits spell one, leaves exactly the bits after it, and updates the tree for it |
| DynTreeNew.GrownIsSound | src/decode/lhv1/dyntree.rs:209-262 | the tree grown pair by pair from equal leaves satisfies the whole invariant |
| DynTreeNew.GrowKeepsGrowing | src/decode/lhv1/dyntree.rs:229-258 | placing one more parent keeps links, sums, order and groups, and the pool has an id for it |
| DynTreeNew.NewTreeIsHeap | src/decode/lhv1/dyntree.rs:209-262 | the initial tree is valid, node i has the children 2i + 1 and 2i + 2, value 0 is the last leaf, and every leaf counts one |
| Formats.FirstCodes | src/decode/lhv1/dyntree.rs:209-262 | in a new tree of 314 leaves, symbol v is written in nine bits as 396 + v if it is below 116, else in eight bits as v - 116 |
| DynTreeUpdate.LeaderIsUnrelated | src/decode/lhv1/dyntree.rs:357-388 | in the middle of a walk the leader is never the root, and a leader that is swapped is no ancestor of the node |
| DynTreeUpdate.PromotionSwaps | src/decode/lhv1/dyntree.rs:357-388 | a promotion exchanges two entries, relinks their children and leaf indices, and leaves every other node and the groups alone; the promotion of a leader changes nothing |
| DynTreeUpdate.PromoteKeepsWalking | src/decode/lhv1/dyntree.rs:357-388 | swapping with the leader keeps everything that holds in the middle of a walk |
| DynTreeUpdate.IncrementKeepsWalking | src/decode/lhv1/dyntree.rs:391-440 | an increment is always possible, moves the missing count to the parent, and the parent's index is smaller |
| DynTreeUpdate.SharedGroupLeavesFreeId | src/decode/lhv1/dyntree.rs:391-423 | when a group has two members, fewer groups than nodes are live, so an id is free |
| DynTreeUpdate.IncrementKeepsPool | src/decode/lhv1/dyntree.rs:391-423 | allocating, freeing or joining a group keeps the free ids distinct and apart from the live ones |
| DynTreeRun.CountRootStartsWalk | src/decode/lhv1/dyntree.rs:426-436 | counting the root first leaves a tree in which only the root is one over |
| DynTreeRun.RoundMoves | src/decode/lhv1/dyntree.rs:357-440 | one round exchanges the entries of node i and of the first node with its count, counts the latter, keeps every other entry and count, and goes on at the parent of the node counted |
| DynTreeRun.RoundGoesOn | src/decode/lhv1/dyntree.rs:426-440 | a walk is one round and then the walk from the node it leads to, which has a smaller index |
| DynTreeRun.UpdateSteps | src/decode/lhv1/dyntree.rs:426-440 | an update is the rebuild if it is due, the count of the root, and the walk from the symbol's leaf |
| DynTreeRun.UpdateCounts | src/decode/lhv1/dyntree.rs:426-440 | an update adds one to the symbol's count and changes no other, after halving all exactly when the root has reached 32768 |
| DynTreeRun.PoolPartitionsIds | src/decode/lhv1/dyntree.rs:82-113 | free and live ids are disjoint and together are all ids, also in the middle of a walk |
| DynTreeRun.RunStaysInBounds | src/decode/lhv1/dyntree.rs:264-440 | after any run of symbols the tree is valid, the root counts all leaves, and no count exceeds 32768 |
| DynTreeSums.RootIsTotal | src/decode/lhv1/dyntree.rs:426-440 | the root's count is the sum of all leaf counts |
| DynTreeRebuild.LeafIsAvailable | src/decode/lhv1/dyntree.rs:278-322 | whenever the merge takes a leaf or a slot, there is one |
| DynTreeRebuild.MergeFillsAll | src/decode/lhv1/dyntree.rs:278-324 | the merge uses every leaf, fills every slot in order of counts, and ends at the root |
| DynTreeRebuild.RegroupIsSound | src/decode/lhv1/dyntree.rs:325-340 | regrouping ordered nodes gives equal counts equal groups, each led by its first node, and uses ids in order |
| DynTreeRebuild.RebuildIsTree | src/decode/lhv1/dyntree.rs:264-341 | a rebuilt tree satisfies the whole invariant of shape, order, sums, indices and groups |
| DynTreeRebuild.RebuildHalves | src/decode/lhv1/dyntree.rs:264-276 | every leaf's count f becomes (f + 1) / 2 |
| DynTreeRebuild.RebuildKeepsOrder | src/decode/lhv1/dyntree.rs:264-341 | leaves keep their order in the array |
| DynTreeRebuild.RebuildBreaksTies | src/decode/lhv1/dyntree.rs:298-322 | in a rebuilt tree a branch comes before every leaf of the same count, and of two branches the earlier one has the earlier children |
| DynTreeUnique.TidyTreeIsUnique | src/decode/lhv1/dyntree.rs:264-341 | two trees with equal counts, the same order of leaves and ties broken alike agree in every entry, count, parent and leaf index |
| DynTreeUnique.RebuildIsUnique | src/decode/lhv1/dyntree.rs:264-341 | but for the ids of groups, the rebuilt tree is the only valid tree with halved counts, the old order of leaves and ties broken this way |
| DynTreeRebuild.RebuildLightensRoot | src/decode/lhv1/dyntree.rs:264-341 | a rebuilt tree is valid and twice its root count is at most the old one plus the number of leaves |
| DynTreeCode.CodeIsRead | src/decode/lhv1/dyntree.rs:442-459 | a symbol's path from the root, followed by anything, reads back as the symbol and uses exactly its bits |
| DynTreeCode.LookupStep | src/decode/lhv1/dyntree.rs:442-459 | a one leads from a branch to the lower index of its pair, a zero to the upper; a leaf needs no bit, and a branch without bits fails |
| DynTreeCode.ReadIsCode | src/decode/lhv1/dyntree.rs:442-459 | whatever is read is some symbol's path followed by what is left |
| DynTreeCode.RoundTrip | src/decode/lhv1/dyntree.rs:426-459 | any symbol sequence written with the evolving tree reads back, bit for bit, and ends in the writer's tree |
| DynTreeOptimal.FrontierIsOptimal | src/decode/lhv1/dyntree.rs:264-440 | at every sibling pair, no depths that meet Kraft's inequality cost less than the tree's own |
| DynTreeOptimal.CodeIsOptimal | src/decode/lhv1/dyntree.rs:264-440 | no code lengths that meet Kraft's inequality write the counted symbols in fewer bits than a valid tree |
| CodeTrees.NoTreeIsBetter | src/decode/lhv1/dyntree.rs:264-440 | no binary tree over the same symbols has a smaller sum of count times depth |
| StaticTree.CompleteFits | src/statictree.rs:123-139 | a table that meets Kraft's equality never has more leaves at a depth than room |
| StaticTree.CompleteMeansFull | src/statictree.rs:143-146 | once no longer codes remain, no branch is open exactly if Kraft's equality holds |
| StaticTree.CompleteStaysSmall | src/statictree.rs:103-117 | for such a table no child index exceeds twice the number of values |
| HuffTrees.HuffTree.SetSingle | src/statictree.rs:74-77 | the tree spells the code of a single value |
| HuffTrees.HuffTree.AddBranches | src/statictree.rs:102-117 | exactly the missing branches are added with consecutive children; an error means an index out of range |
| HuffTrees.HuffTree.AddLeaves | src/statictree.rs:118-134 | exactly the values of the current length are added in ascending order, and longer ones are reported |
| HuffTrees.HuffTree.BuildTree | src/statictree.rs:90-147 | succeeds exactly for tables of admissible size that meet Kraft's equality, and then spells their canonical code |
| HuffTrees.LargestTableIsComplete | src/statictree.rs:90-147 | a table of exactly half the largest index, 16383 lengths, can be complete, so the largest size accepted is reached |
| HuffTrees.HuffTree.ReadEntry | src/statictree.rs:161-178 | reads a value exactly when its canonical code comes next, and leaves exactly the bits after it |
| HuffTrees.WholeTreeIsClosed | src/statictree.rs:90-147 | a whole tree for n codes has 2n - 1 nodes and every child index is in range |
| CanonicalCode.CodeIsRead | src/statictree.rs:150-178 | the canonical code of a value, whatever follows, leads to its leaf and uses exactly its bits |
| CanonicalCode.ReadIsCode | src/statictree.rs:150-178 | whatever the tree reads is the canonical code of a value and what follows it |
| CanonicalCode.OnlyOneIsNext | src/statictree.rs:150-178 | canonical codes of a complete table are prefix-free |
| CanonicalCode.TreeReadsCode | src/statictree.rs:150-178 | following the rows of the tree decodes the same as comparing with the canonical codes |
| CanonicalCode.CodesAreRead | src/statictree.rs:150-178 | any concatenation of codes decodes back to its values |
| CanonicalCode.CodeIsSumBefore | src/statictree.rs:90-178 | as a binary fraction, a value's code is the sum of 2^-length over all values with shorter codes and the smaller ones with codes as long |
| BitStreams.BitStream.constructor | src/bitstream.rs:65-67 | a new reader holds no bits: what it reads is the bits of the source |
| Formats.BytesAreRead | src/bitstream.rs:77-105 | bit 8i + k of the bits of bytes is the bit of value 2^(7 - k) of byte i |
| Formats.HighestFirst | src/bitstream.rs:77-105 | the first bit of n bits read as a number has the value 2^(n - 1) |
| BitStreams.BitStream.NextBits | src/bitstream.rs:77-105 | returns the next n bits as a number and fails exactly when fewer remain; the reader's limit accounting holds either way |
| BitStreams.BitStream.ReadBit | src/bitstream.rs:140-142 | returns the next bit |
| BitStreams.BitStream.ReadBits | src/bitstream.rs:144-150 | as `NextBits`, with nothing read for zero bits and a decompression error beyond the result type's width |
| BitStreams.RefillJoins | src/bitstream.rs:86-97 | clearing the marker and joining shifted words gives the number that the held and the fetched bits write |
| BitStreams.RefillKeeps | src/bitstream.rs:98-103 | the new buffer word holds exactly the fetched bits that are left over |
| RingBufs.RingArrayBuf.constructor | src/ringbuf.rs:70-76 | a ring of spaces with the cursor at the start |
| RingBufs.RingArrayBuf.Push | src/ringbuf.rs:99-103 | appends to the history; the ring goes on holding its last bytes |
| RingBufs.RingArrayBuf.SetCursor | src/ringbuf.rs:95-97 | the ring's contents from the new cursor on become the history |
| RingBufs.RingArrayBuf.HoldsLast | src/ringbuf.rs:78-103 | the ring read from its cursor is always the last bytes of fill and output |
| RingBufs.RingArrayBuf.IterFromOffset | src/ringbuf.rs:105-109 | iterates from the masked offset back |
| RingBufs.RingArrayBuf.IterFromPos | src/ringbuf.rs:111-114 | iterates from the masked position, whose distance behind the cursor is known |
| RingBufs.HistoryIter.Next | src/ringbuf.rs:57-63 | yields the byte at a fixed distance back and appends it, even once the copy overlaps itself |
| Lz.CopyOverlapsItself | src/ringbuf.rs:57-63 | byte i of a copy is the byte d + 1 places before it in the extended history |
| Lz.CopyIsPerformed | src/ringbuf.rs:57-63 | carrying out a copy appends exactly its count of bytes, each the one d + 1 places before it |
| Lz.CopySplits | src/decode/lhv1.rs:50-65 | a copy cut anywhere and resumed gives the same bytes |
| Lz.SplitIsInvisible | src/decode/lhv2.rs:237-298 | filling two buffers is filling one of both sizes: same bytes, same failure, same final state |
| Lz.FillIsExecution | src/decode/lhv2.rs:265-298 | what fills a buffer is what some number of whole commands write, cut to size |
| Lz.ExecutionFills | src/decode/lhv2.rs:265-298 | conversely, a buffer of the size that whole commands write is filled by just these |
| LzCopy.CopyFrom | src/decode/lhv1.rs:57-61 | the copy loop writes the bytes of an unbounded-history copy, as many as fit, and they become history |
| LzCopy.CopyFromPos | src/decode/lzs.rs:33-48 | a copy by position is the copy by the position's distance; the advanced position denotes the same distance |
| LzCopy.PositionKeepsDistance | src/decode/lz5.rs:68-75 | position plus bytes copied lies as far behind the moved cursor as the position lay before |
| LzCopy.PositionIsLastWritten | src/ringbuf.rs:111-114 | the byte copied for a position is the byte of the history written last to that slot of the ring |
| Lh1Decoders.OffsetFits | src/decode/lhv1.rs:107-131 | every nine-bit code has at most five more bits and gives an offset inside the ring |
| Lh1Decoders.Lh1Decoder.constructor | src/decode/lhv1.rs:25-35 | the start state: the bits of the source, the initial tree of 314 symbols, a history of spaces |
| Formats.StartOfLh1 | src/decode/lhv1.rs:13-35 | an lh1 file begins with the initial tree of 314 symbols and 4096 spaces in front of it |
| Lh1Decoders.Lh1Decoder.ReadOffset | src/decode/lhv1.rs:43-48 | reads an offset exactly when the bits suffice, below the ring's size |
| Lh1Decoders.Lh1Decoder.ReadCommand | src/decode/lhv1.rs:38-48 | reads a literal or a copy exactly when the bits spell one, and updates the tree for it |
| Lh1Decoders.Lh1Decoder.CopyFromHistory | src/decode/lhv1.rs:50-65 | copies what fits and keeps the rest pending, as `Lz.Resume` says |
| Lh1Decoders.Lh1Decoder.FillBuffer | src/decode/lhv1.rs:75-102 | succeeds exactly if the unbounded-history decoder does, with its bytes and its state; the data's end stays put |
| Lh1Writing.OffsetIsRead | src/decode/lhv1.rs:105-131 | every offset of the ring has a code that reads back as it |
| Formats.Lh1Alphabet | src/decode/lhv1.rs:84-101 | 314 symbols are the 256 bytes and the copies of 3 to 60 bytes with offsets below 4096, and nothing else |
| Formats.Lh1Commands | src/decode/lhv1.rs:84-128 | whatever is read is a byte or such a copy |
| Lh1Writing.StreamIsRun | src/decode/lhv1.rs:75-102 | decoding a written stream carries out exactly its commands, stops behind it and ends with the writer's tree |
| Lh1Writing.StreamIsDecoded | src/decode/lhv1.rs:75-102 | a buffer of the right size receives exactly the bytes that the written commands produce |
| Lhv2Decoders.LhaV2Decoder.constructor | src/decode/lhv2.rs:60-73 | no block is begun; the history is spaces |
| Formats.StartOfBlocks | src/decode/lhv2.rs:45-56 | lh4 and lh5 files begin with 8192 spaces in front of them, lh6 and lh7 with 65536, lhx with 524288 |
| Lhv2Decoders.LhaV2Decoder.ReadCodeLength | src/decode/lhv2.rs:76-85 | a three-bit length, extended by ones, failing beyond 255 |
| Formats.LongLengths | src/decode/lhv2.rs:76-85 | each one behind three ones makes a length longer by one; 255 is the longest, and one more fails |
| Lhv2Decoders.LhaV2Decoder.ReadTempTree | src/decode/lhv2.rs:97-135 | succeeds exactly for a well-formed temporary table, gap included, and then holds its code |
| Formats.TempSizes | src/decode/lhv2.rs:97-135 | the temporary table has up to 20 lengths, its size in five bits; larger sizes are refused |
| Formats.GapsFit | src/decode/lhv2.rs:120-125 | a gap behind the first three lengths that exceeds the table is refused |
| Lhv2Decoders.LhaV2Decoder.ReadTokenTable | src/decode/lhv2.rs:155-172 | the table filled in place is the run-length expansion of the tokens read, cut to the stated size |
| Lhv2Format.TableBegins | src/decode/lhv2.rs:155-172 | the expansion of a table begins with the run of its first token, however long that is |
| Lhv2Decoders.LhaV2Decoder.ReadCommandTree | src/decode/lhv2.rs:137-177 | succeeds exactly for a well-formed command table, and then holds its code |
| Formats.TableSizes | src/decode/lhv2.rs:137-177 | tables of up to 510 command lengths read back behind their size in nine bits, and a size of 511 is refused |
| Formats.RunsAreZeros | src/decode/lhv2.rs:155-172 | tokens expand one after the other: a skip to as many zeros, a length to itself |
| Lhv2Decoders.LhaV2Decoder.ReadOffsetTree | src/decode/lhv2.rs:179-207 | succeeds exactly for a well-formed offset table, and then holds its code |
| Formats.OffsetTables | src/decode/lhv2.rs:179-207 | the table of offset lengths has its size in front in four bits for lh4 and lh5, in five for lh6, lh7 and lhx; at most 14, 17 and 20 lengths read back |
| Formats.OffsetTablesEnd | src/decode/lhv2.rs:179-207 | a larger size is refused |
| Formats.SingleOffsets | src/decode/lhv2.rs:187-192 | a size of zero is followed by the only value, in as many bits as the size |
| Lhv2Decoders.LhaV2Decoder.BeginNewBlock | src/decode/lhv2.rs:209-214 | reads count and codes exactly when a whole header is there; both trees are then well-formed |
| Lhv2Format.BlockHeader | src/decode/lhv2.rs:209-214 | a block header takes at least one bit, so passing over empty blocks ends |
| Lhv2Decoders.LhaV2Decoder.BeginCommands | src/decode/lhv2.rs:275-277 | empty blocks are passed over until one has commands or reading fails |
| Lhv2Decoders.LhaV2Decoder.ReadOffset | src/decode/lhv2.rs:222-235 | the offset whose bit length is coded and whose highest bit is implied |
| Formats.OffsetsWrap | src/decode/lhv2.rs:217-298 | an offset is taken modulo 8192, 65536 or 524288, and a copy of value v has v - 253 bytes |
| Lhv2Format.OffsetSizesFit | src/decode/lhv2.rs:179-235 | no offset code of a block header gives an offset of more than 31 bits, so its highest bit fits in 32 |
| Lhv2Decoders.LhaV2Decoder.ReadCommand | src/decode/lhv2.rs:217-298 | the next command of this or a later block; commands remain only when both trees are well-formed |
| Lhv2Decoders.LhaV2Decoder.CopyFromHistory | src/decode/lhv2.rs:237-252 | copies what fits and keeps the rest pending, with offsets reduced to the ring |
| Lhv2Decoders.LhaV2Decoder.FillBuffer | src/decode/lhv2.rs:265-298 | terminates, and succeeds exactly if the unbounded-history decoder does, with its bytes and its state |
| Lhv2Writing.LengthsAreRead | src/decode/lhv2.rs:76-85 | any table of lengths, written one after the other, reads back |
| Lhv2Writing.TokensAreRead | src/decode/lhv2.rs:88-95 | any tokens that cover a table and would not without the last read back, with nothing read after them |
| Lhv2Writing.HeaderIsRead | src/decode/lhv2.rs:97-214 | any header that can be written reads back as its count and codes, using exactly its bits |
| Lhv2Writing.EmptyBlockIsPassed | src/decode/lhv2.rs:275-277 | a block without commands is passed over |
| Lhv2Writing.CommandIsRead | src/decode/lhv2.rs:217-298 | any command the codes can express reads back as itself |
| Lhv2Writing.StreamIsRun | src/decode/lhv2.rs:265-298 | decoding any stream of written blocks carries out exactly its commands and stops right behind it |
| Lhv2Writing.StreamIsDecoded | src/decode/lhv2.rs:265-298 | a buffer of the right size receives exactly the bytes that the written commands produce |
| LzsDecoders.LzsDecoder.constructor | src/decode/lzs.rs:22-31 | decoding starts 17 slots before the end of a ring of spaces |
| Formats.StartOfLzs | src/decode/lzs.rs:10-31 | an lzs file begins with 2048 spaces in front of it |
| LzsDecoders.LzsDecoder.ReadCommand | src/decode/lzs.rs:67-80 | a one and a literal, or a zero, a position and a length, exactly when the bits suffice |
| Formats.LzsLiteral | src/decode/lzs.rs:67-73 | a one and eight bits are a literal |
| Formats.LzsCopy | src/decode/lzs.rs:67-80 | a zero, eleven bits of position and four of length less two are a copy; output byte k goes to slot 2031 + k of 2048, and the copy begins with the byte in the slot of its position |
| LzsDecoders.LzsDecoder.CopyFromHistory | src/decode/lzs.rs:33-48 | copies what fits; the suspended position and count denote the rest of the same copy |
| LzsDecoders.LzsDecoder.FillBuffer | src/decode/lzs.rs:58-82 | succeeds exactly if the unbounded-history decoder does, with its bytes and its state |
| LzsWriting.CommandIsRead | src/decode/lzs.rs:67-80 | a literal or a copy of any distance in the ring, written with its position, reads back as itself |
| LzsWriting.StreamIsRun | src/decode/lzs.rs:58-82 | decoding a written stream carries out exactly its commands and stops behind it |
| LzsWriting.StreamIsDecoded | src/decode/lzs.rs:58-82 | a buffer of the right size receives exactly the bytes that the written commands produce |
| Lz5Decoders.PresetRing | src/decode/lz5.rs:23-51 | the loops fill the ring with the preset history and leave the cursor 18 slots before its end |
| Lz5Decoders.Lz5Decoder.constructor | src/decode/lz5.rs:23-59 | the start state: no flags, the bytes of the source, the preset history |
| Formats.StartOfLz5 | src/decode/lz5.rs:23-59 | an lz5 file finds in front of it every byte value thirteen times, all values up, all down, 128 zeros, 110 spaces and 18 zeros, in these slots |
| Lz5Decoders.NewBitmap | src/decode/lz5.rs:98-103 | a flag byte with its marker holds the byte's eight bits, lowest first |
| Lz5Decoders.CopyFields | src/decode/lz5.rs:112-119 | masking and shifting two bytes gives a twelve-bit position and a four-bit length |
| Lz5Decoders.Lz5Decoder.ReadCommand | src/decode/lz5.rs:97-121 | the item that the next flag announces, after a flag byte if none is left |
| Formats.FlagsAreNext | src/decode/lz5.rs:97-103 | a flag byte stands for eight flags, the bit of value 2^k being the k-th |
| Formats.Lz5Literal | src/decode/lz5.rs:104-110 | a flag that is one announces a byte taken as it is |
| Formats.Lz5Copy | src/decode/lz5.rs:112-121 | two bytes are eight low bits of position, then four high bits of position and four of length less three; output byte k goes to slot 4078 + k of 4096 |
| Lz5Decoders.Lz5Decoder.CopyFromHistory | src/decode/lz5.rs:61-76 | copies what fits; the suspended position and count denote the rest of the same copy |
| Lz5Decoders.Lz5Decoder.FillBuffer | src/decode/lz5.rs:86-128 | succeeds exactly if the unbounded-history decoder does, with its bytes and its state, flags included |
| Lz5Writing.CommandIsRead | src/decode/lz5.rs:104-121 | a literal or a copy of any distance in the ring, behind its flag, reads back as itself |
| Lz5Writing.StreamIsRun | src/decode/lz5.rs:86-128 | decoding commands in groups of eight behind a flag byte carries out exactly these and stops behind them; only unused flags of the last group are left |
| Lz5Writing.StreamIsDecoded | src/decode/lz5.rs:86-128 | a buffer of the right size receives exactly the bytes that the written commands produce |
| Crc16s.TableIsDivision | src/crc.rs:2-35 | each of the 256 entries is what eight steps of reflected division by 0xA001 leave of its index |
| Crc16s.LookupFeeds | src/crc.rs:48-56 | one look-up does what feeding a byte's eight bits to the division does |
| Crc16s.Crc16.Digest | src/crc.rs:48-56 | the sum becomes the remainder of the message extended by the data, bit by bit |
| Crc16s.CrcAppends | src/crc.rs:48-56 | a message digested in parts has the sum of the whole |
| Crc16s.OneByteIsDetected | src/crc.rs:48-56 | changing any one byte of a message changes its sum |
| Crc16s.CheckValue | src/crc.rs:2-56 | the sum of the ASCII digits 1 to 9 is 0xBB3D |
| StubIo.Take.ReadAll | src/stub_io.rs:105-115 | reads the available bytes up to the buffer's size; position plus limit never changes |
| StubIo.Take.ReadExact | src/stub_io.rs:118-126 | reads all or nothing, exactly when enough bytes are available; position plus limit never changes |
| StubIo.DiscardToEnd | src/stub_io.rs:52-68 | terminates with nothing available; position plus limit never changes |
| Headers.ByteSumAppends | src/header/parser.rs:414-417 | summing with wrap-around part by part is summing the whole |
| Headers.ByteSumIsSum | src/header/parser.rs:414-417 | the wrapping sum is the plain sum modulo 256 |
| Headers.WalkFindsChain | src/header/parser.rs:44-61 | the stored lengths cut the extra data into exactly the headers that were appended |
| Headers.WalkCovers | src/header/parser.rs:44-61 | the headers found cover the data with no gap and no overrun |
| Headers.ExtraHeaderIter.Next | src/header/parser.rs:44-61 | yields the next header without its length field, at least one byte, or ends exactly with the data |
| HeaderParsers.Parser.ReadBase | src/header/parser.rs:177-264 | succeeds exactly if the bytes hold the fields of a level at their places and pass its checks, and returns just these fields |
| HeaderParsers.Parser.ReadExtra | src/header/parser.rs:266-327 | succeeds exactly if the chain of extra headers can be followed to its end within its limits, and keeps it with the checksum cleared |
| HeaderParsers.Parser.ReadPadding | src/header/parser.rs:329-343 | reads a padding byte exactly where level 2 states one more; fails exactly for a wrong length of level 2 or a missing byte |
| HeaderParsers.ReadHeader | src/header/parser.rs:170-376 | no header exactly at the end or at a zero byte; a header exactly if the rest of the source begins with one, and then this one, read to its end |
| HeaderBytes.LittleEndian | src/header/parser.rs:242-271 | 16-, 32- and 64-bit numbers are stored with their lowest byte first |
| HeaderBytes.WordHalves | src/header/parser.rs:207-207 | a checksum has its lower half in its first byte |
| HeaderBytes.CommonFields | src/header/parser.rs:64-75 | every accepted header has its level in byte 20, its method in bytes 2 to 6 and its time in bytes 15 to 18 |
| HeaderBytes.LevelZero | src/header/parser.rs:170-264 | a header of level 0 has the compressed size in bytes 7 to 10, the original size in 11 to 14, then name, checksum, system and area up to the length that byte 0 gives; byte 1 is the sum of what follows it |
| HeaderBytes.LevelOne | src/header/parser.rs:170-357 | the same for level 1, whose stored compressed size counts the extra headers, and whose system is always there |
| HeaderBytes.LevelTwo | src/header/parser.rs:206-342 | a header of level 2 has checksum, system and first length in bytes 21 to 25, and ends where its first two bytes say, or two bytes later |
| HeaderBytes.LevelTwoAlone | src/header/parser.rs:236-342 | without extra headers, level 2 is accepted exactly if it states 26 bytes, or 27 of which the last is there |
| HeaderBytes.LevelThree | src/header/parser.rs:206-342 | a header of level 3 has checksum and system in bytes 21 to 23, its stated length in 24 to 27 and the first length in 28 to 31 |
| HeaderBytes.SizesInBytes | src/header/parser.rs:270-317 | at levels 2 and 3 the sizes are those of bytes 7 to 14, unless an extra header 0x42 gives them: its bytes 1 to 8 the compressed and 9 to 16 the original size; the last such header counts |
| HeaderBytes.ExtraAsStored | src/header/parser.rs:276-327 | if no extra header begins with a zero, the extra headers are the bytes behind the fields |
| HeaderBytes.ExtraWithChecksum | src/header/parser.rs:293-349 | if one does, the two bytes behind that zero are the checksum of the whole header, with zeros in their place, and are kept as zeros |
| HeaderBytes.PayloadsAreFound | src/header/parser.rs:44-61 | a header ends with the length of the next, in two bytes or four; the iterator yields what is before it |
| HeaderFormat.KeptGrows | src/header/parser.rs:293-304 | clearing the checksum of the first common header changes just its two bytes |
| HeaderFormat.GatherIsChain | src/header/parser.rs:276-327 | the headers kept form a chain with each next length read after clearing, equal the bytes read but for the checksum, and give the sizes |
| HeaderFormat.BaseOfPrefix | src/header/parser.rs:177-264 | the fields are determined by the bytes they take, whatever follows |
| HeaderFormat.ParsedIsAccepted | src/header/parser.rs:170-376 | an accepted header has its fields from their places, an iterable chain covering the extra data, the right sizes (level 1's skip size included), a length within its limits, and the checksum of the whole |
| HeaderWriting.CrcBytesAreRead | src/header/parser.rs:293-304 | any 16-bit checksum can be written as two bytes that read back as it |
| HeaderWriting.ChainIsRead | src/header/parser.rs:276-327 | any linked chain of extra headers with at most one common header, written with a checksum in it, is gathered as the chain |
| HeaderWriting.HeaderIsRead | src/header/parser.rs:170-376 | any header of any level that can be written, checksum included, is accepted and read back as what it was written from, using exactly its bytes |
| HeaderWriting.HeaderIsWritten | src/header/parser.rs:170-376 | conversely, every accepted header is, byte for byte, one that can be written, from the fields and the chain it was read as |
| HeaderWriting.GatheredIsWritten | src/header/parser.rs:276-327 | the extra headers of an accepted header are a chain within its limits, and their bytes are that chain with its checksum put back |
| HeaderLengths.ShorterThanStated | src/header/parser.rs:329-343 | 32 bytes of level 3 that state a length of 40 are accepted as a header of 32 bytes |
| HeaderLengths.WhenAsStated | src/header/parser.rs:329-343 | an accepted header of level 2 or 3 is as long as it states exactly if its extra headers end there, or no later at level 2 |
| HeaderLengths.WhichLengthsAreExact | src/header/parser.rs:255-343 | for level 2 and 3, exactly the stated lengths that every header accepted with them has |
| HeaderParsers.IterExtra | src/header/parser.rs:384-390 | iteration over an accepted header's extra data starts at the chain that covers it |
| HeaderParsers.ListExtra | src/header/parser.rs:384-390 | a loop over the extra headers ends and sees each once, in order |
| Decoders.ProduceSplits | src/decode.rs:34-34 | for every method, the output does not depend on how it is cut into reads |
| Decoders.FillBuffer | src/decode.rs:403-444 | fills the buffer with what the format says or fails; the end of the file's data stays where it is |
| Decoders.NextBytes | src/decode.rs:327-334 | succeeds exactly if one read from the start would have produced as much, and then these are its next bytes |
| Decoders.NewFromCompression | src/decode.rs:365-388 | each method gets its decoder, in the start state of its format over the bytes available |
| Decoders.KnownIsIdentifier | src/header/compression.rs:32-77 | an identifier is recognized as a method exactly if it is the five ASCII characters of that method |
| Formats.StartOfOthers | src/decode.rs:365-388 | stored files are their own contents; directories and methods that are unknown or have no decoder produce nothing |
| Decoders.NewFromHeader | src/decode.rs:357-364 | the decoder of the header's method at the start of the data that the header's compressed size limits, without reading anything |
| Sessions.LhaDecodeReader.Read | src/decode.rs:327-334 | succeeds exactly if the method can decode as much more as fits and is left, delivers just that, never beyond the original size, and sums up what it delivers |
| Sessions.LhaDecodeReader.BeginNew | src/decode.rs:179-200 | begins exactly with the header the source begins with, at the start of its method on its data, which ends the compressed size after it; on a bad header the session is unchanged |
| Sessions.LhaDecodeReader.NextFileWithSink | src/decode.rs:246-254 | the next header is the one at the very end of the current data, whatever was read or failed before; success is exact and the new file is at its start |
| Sessions.LhaDecodeReader.TakeInner | src/decode.rs:269-274 | gives the source back and leaves an empty session |
| Sessions.LhaDecodeReader.WholeFileIsChecked | src/decode.rs:276-298 | after a whole file the check passes exactly if the header's checksum is that of the whole output |
| Archives.ReadFile | src/decode.rs:327-334 | reading to the end with a buffer of any size gives what one read of the whole file would, or fails exactly if that would |
| Archives.ExtractAll | src/lib.rs:51-93 | a loop over the files ends, sees each member once, at consecutive ends of data, and gets its contents and its check right; it succeeds exactly if every header can be read |
| ArchiveWriting.FileIsDecoded | src/decode.rs:365-388 | for each supported method, any stream its format can express, packed into bytes, is decoded to the contents that its commands produce |
| ArchiveWriting.AnyContentsSuit | src/decode.rs:365-388 | any contents at all can be written in the format of each supported method |
| ArchiveWriting.MembersAreFound | src/decode.rs:246-254 | headers and data written one after the other are found as just these members, whatever was written before them |
| ArchiveWriting.ArchiveIsExtracted | src/lib.rs:51-93 | extracting an archive that was written gives each member's header and contents, with its checksum right |

## Left out

- Behaviour after a decoder has failed, other than where the file's data ends in the source: the code promises nothing about trees and buffers then. The lz5 decoder keeps its flags in a local variable and stores them on success; the model updates the field as it goes, which differs only after a failure.
- I/O errors other than a premature end, retries of interrupted reads, files, and the bridging between the two reader traits: the source is a byte sequence with a position.
- `HuffTrees.HuffTree.BuildTree`: does not model the overflow check of a debug build, which would stop the program after a code length of 255; the model is the release build, where the loop ends there.
- `HeaderParsers.Parser.ReadBase`: the 32-bit sum of header lengths wraps around as in a release build; a debug build would stop.
- `HeaderParsers.ReadHeader`: does not model a failed memory allocation, or the MS-DOS attribute words, which are copied without a check.
- `StubIo.Take.ReadExact`: models the slice reader, which leaves everything in place on failure; a failed read of a `std` source may have consumed the rest of a truncated source without lowering the limit.
- `Archives.ExtractAll`: is the loop that the library's documentation shows, over all members and without printing or path matching; where that loop stops at the first failed read or checksum, this one records it and goes on, and where `parse_file` rejects a source without a header, this one finds no members.
- `Sessions.LhaDecodeReader.Read`: fills a buffer of its own and copies it, where the code fills a slice of the caller's buffer.
- `LhaDecodeReader::new`, `begin_with_header_and_decoder`, `next_file` with its fixed sink size, and the accessors: each is one of the modelled operations or a field.
- The 16-bit packing of entries is modelled on its own (`TreeEntries`); the trees hold entries as values.
- Local tables of code lengths are arrays filled in place; the vector of a static tree is a sequence that grows.
- Uninitialised buffers, the packed-struct cast and the capacity of vectors.
- Timestamps, systems, path names, comments and attribute flags: string and table handling.
- Error texts, `Debug` and `Display` output, feature switches and the dispatch macro.

# UCSD p-System disk images: a model and its proofs

The repository reads, repairs and changes UCSD p-System disk images: files are runs of
consecutive 512-byte blocks listed in a small directory, the image may be seen through
sector-interleave filters or be compressed by Teledisk, and text is kept in a block
format of its own. This project models the algorithmic cores of that code in Dafny and
proves what they promise, for all inputs and over whole runs.

| part | files | main results |
|---|---|---|
| Teledisk decompressor | `HuffmanShape`, `HuffmanForest`, `HuffmanUpdate`, `AdaptiveHuffman`, `HuffmanCode`, `BitReader`, `Lzss`, `TokenStream`, `Teledisk` | every input says one list of tokens, and any calls hand out the LZSS expansion of that list, up to where the input ends; behind it, the three arrays keep the sibling property and the parent/son inverse through every update and rebuild, which have one outcome |
| String comparison | `EditDistance`, `FurthestPaths`, `SnakeLists`, `Fstrcmp` | the linear-space divide and conquer finds a longest common subsequence, and with it a shortest script of insertions and deletions; its search never fails, and its table never overflows |
| Sector filters | `Bytes`, `Arithmetic`, `SectorMap`, `SectorView`, `SectorIo`, `Device` | any stack of Apple, PDP and offset filters is one flat byte array for reads, writes, zeroing and overlapping moves |
| Volume | `DirectoryFormat`, `Extents`, `DirectoryEntries`, `VolumeState`, `Wiping`, `Volume`, `FileSystem` | moving the gap keeps every file; truncate and write do to the files what they should, or fail for lack of space exactly when the blocks do not suffice; a run on any mounted image with ordered, disjoint files keeps the layout, and once the directory is stored, mounting again shows the same files |
| Text codec | `TextFormat`, `TextEncode`, `TextDecode`, `TextBlocks`, `TextRoundTrip`, `OutputBuffer`, `TextFilter` | decoding undoes encoding up to a normal form, however the bytes are put into the buffers of the two filters; every block is whole lines and NULs |
| String table | `Gizzards` | equal strings are one node, counts are live handles, splitting keeps the nodes |
| Shell quoting | `QuoteShell` | the quoted string reads back as one word, with the exact condition for newlines |

Each class has the fields of the source's object or globals, and its methods have the
source's loops; predicates and functions on sequences say what the fields mean, and the
lemmas are about those. An image is an array of bytes; reads and writes within it
succeed. A sector stack is a datatype, over which the methods of the sector layer are
defined by cases, in place of virtual methods. A volume is also a value (`State`), and
the files it stands for are a sequence of names, kinds, dates and bytes (`Files`).
What the functions in the contracts of methods compute is fixed by lemmas of their own in
numbers, bytes and places (those named `...Is`, `...Means`, `...Places` and `...InOrder`),
and where it is short, in the contracts themselves.

## Where the code falls short

* Writing past the end of a file but within its last block (`lib/directory/entry/file.cc:457-474`)
  masks the offset with -511, which keeps its lowest bit, and zeroes nothing: data at an odd
  offset lands one byte late, and stale bytes become part of the file. `HolesExactly` says
  precisely when the result is right all the same, `HoleFails` gives a volume and a write
  for which it is not, and every other write does what it should (`Volumes.Volume.Write`).
  A write that fills such a block to its end fails an assertion, unless the reading before
  it already fails, which is at an odd offset in the last block of the medium
  (`AbortsExactly`, `ReadableUnlessLast`); `AbortsThere` gives a volume and a write. The
  model answers `Crashed` there. The volume of both is what mounting its medium gives.
* A ten-block label allows 156 files, but the stored directory is built in one buffer of
  2048 bytes: `BufferHoldsAll` says that only the six-block label is safe,
  `BufferOverflows` that any larger one allows more than the 77 files that fit, and `MkNod`
  asks for fewer than 77 files with it.
* The PDP filter gives 26 * 7 bytes as what its size must be a multiple of
  (`lib/sector_io/pdp.cc:180-185`), having taken the shift for the sector size. With 91
  sectors, such a multiple, sector 81 is mapped to sector 102 (`PdpMultipleFails`). All
  sectors are mapped within the medium if and only if there are whole tracks of 26, or 1 or
  25 sectors of a track whose number is a multiple of 13 (`PdpMapsWithin`). The model asks
  for whole tracks (`Fits`).
* A newline met while `quote_shell` is in double quotes is escaped with a backslash, which
  a shell reads as nothing at all: `RoundTrip` gives the exact condition, `NewlineLost` a
  string of two characters.
* The look of the first piece a text decoder is given decides whether 1024 bytes are
  skipped (`FirstPieceDecides`). Two ways of cutting up a file agree if and only if their
  first pieces look alike or the file is decoded the same without those bytes
  (`CuttingsAgree`); with the letter A and a byte 1, one by one or at once, they do not
  (`CuttingsDiffer`). For what the encoder puts out, nothing depends on the pieces.

## Model

| member | source | states |
|---|---|---|
| AdaptiveHuffman.HuffmanTree.constructor | lib/sector_io/td0.cc:147-183 | the first tree: leaves in symbol order, every symbol of frequency 1, each further node joining the next two; it is valid (sibling property, sums, parent the inverse of son, every symbol at one leaf) |
| AdaptiveHuffman.HuffmanTree.Update | lib/sector_io/td0.cc:188-271 | the tree stays valid and one symbol counts one more; when the tree is full, a symbol of frequency f first gets a frequency g with f <= 2g <= f + 1, and otherwise all others keep theirs; the tables are the one outcome this has |
| AdaptiveHuffman.HuffmanTree.Rebuild | lib/sector_io/td0.cc:198-236 | from a full tree, a valid one that is not full, with every frequency f replaced by a g with f <= 2g <= f + 1, and its nodes in the order that joining the lightest two gives |
| AdaptiveHuffman.HuffmanTree.GatherLeaves | lib/sector_io/td0.cc:203-211 | the leaves, moved to the front in place, are a forest in which every symbol has its halved frequency |
| AdaptiveHuffman.HuffmanTree.JoinPair | lib/sector_io/td0.cc:214-226 | the new node is inserted where the arrays become the joined forest, behind all nodes that are no heavier |
| AdaptiveHuffman.HuffmanTree.ConnectParents | lib/sector_io/td0.cc:228-235 | afterwards the parent array is the inverse of the son array |
| AdaptiveHuffman.HuffmanTree.Increment | lib/sector_io/td0.cc:239-269 | the climb ends at the root, the tree is valid, and only the given symbol counts one more; every node on the way has gone to the last place of its old frequency |
| AdaptiveHuffman.HuffmanTree.Climb | lib/sector_io/td0.cc:242-268 | one step of the climb keeps everything but the sum at one node, which moves up; symbols keep their frequencies |
| AdaptiveHuffman.HuffmanTree.Overtake | lib/sector_io/td0.cc:243-265 | the raised node is exchanged with the last node it now outweighs, which keeps the order |
| HuffmanUpdate.FirstTreeUnique | lib/sector_io/td0.cc:147-183 | there is one first tree |
| HuffmanUpdate.FirstLeaf | lib/sector_io/td0.cc:157-163 | its nodes 0 to 313 are the leaves of the symbols in order, each of frequency 1 |
| HuffmanUpdate.FirstNode | lib/sector_io/td0.cc:165-172 | each node above them joins the next two, with the sum of their frequencies |
| HuffmanUpdate.ParentDetermined | lib/sector_io/td0.cc:228-235 | the parent array holds nothing that the son array does not |
| HuffmanUpdate.ClimbCounts | lib/sector_io/td0.cc:239-269 | the whole climb from a leaf counts its symbol once and no other |
| HuffmanUpdate.UpdatedUnique | lib/sector_io/td0.cc:188-271 | an update has one outcome, rebuild included |
| HuffmanUpdate.UpdatedCounts | lib/sector_io/td0.cc:188-271 | that outcome is a valid tree in which the symbol counts one more |
| HuffmanShape.SwapShape | lib/sector_io/td0.cc:252-263 | exchanging two nodes, neither below the other, keeps parent the inverse of son and children below parents |
| HuffmanShape.ClimbStep | lib/sector_io/td0.cc:242-268 | what one iteration of the climb does to the three arrays keeps the invariant of the climb |
| HuffmanForest.JoinLinked | lib/sector_io/td0.cc:214-226 | joining the first two roots keeps every symbol at exactly one leaf of its weight |
| HuffmanForest.JoinBalanced | lib/sector_io/td0.cc:214-226 | it keeps the frequencies sorted and the total unchanged |
| HuffmanForest.FinishShape | lib/sector_io/td0.cc:228-235 | the last forest with its parents connected is one tree over all symbols |
| HuffmanCode.CodewordUnique | lib/sector_io/td0.cc:331-354 | in every valid tree a bit string spells a symbol if and only if it is that symbol's codeword |
| HuffmanCode.PrefixFree | lib/sector_io/td0.cc:331-354 | no codeword is the beginning of another |
| HuffmanCode.PathLength | lib/sector_io/td0.cc:341-348 | the walk from the root takes at most as many bits as the index has to fall |
| BitReader.Reader.GetCharRaw | lib/sector_io/td0.cc:276-289 | the next byte, or none exactly at the end of the input |
| BitReader.Reader.GetBit | lib/sector_io/td0.cc:294-308 | the bit at the current position, most significant first; the position moves by one; none exactly at the end |
| BitReader.Reader.GetUnalignedByte | lib/sector_io/td0.cc:313-326 | the number made by the next eight bits, on any boundary; the position moves by eight |
| BitReader.ByteIn | lib/sector_io/td0.cc:300-301 | merging a byte into the buffer leaves exactly the unread bits in it |
| BitReader.BitOut | lib/sector_io/td0.cc:304-305 | the top bit of the buffer is the bit at the position, and the rest stays buffered |
| BitReader.ByteOut | lib/sector_io/td0.cc:322-323 | the top byte of the buffer is the number of the next eight bits |
| BitReader.BitsOfByte | lib/sector_io/td0.cc:294-308 | the eight bits of a byte, most significant first, add up to it |
| Teledisk.Decompressor.constructor | lib/sector_io/td0.cc:147-183 | a valid start: the first tree at bit 0 of the input, nothing decoded, the history all spaces |
| Teledisk.Decompressor.DecodeChar | lib/sector_io/td0.cc:331-354 | the symbol whose codeword in the old tree the bits taken are, and the tree updated with it; none only if no bits from here on are a codeword; the walk always ends |
| Teledisk.Decompressor.DecodePosition | lib/sector_io/td0.cc:359-377 | the position below 4096 whose codeword the bits taken are, no bit more or less; none only if no bits from here on are one |
| Teledisk.Decompressor.BeginMatch | lib/sector_io/td0.cc:416-419 | the copy token with the decoded distance and length is begun and follows the tokens so far: c - 253 bytes from x + 1 back, when position x comes next; refused only if no token can be read here |
| Teledisk.Decompressor.CopyByte | lib/sector_io/td0.cc:424-428 | the next byte of the copy, read from the ring while it is being written |
| Teledisk.Decompressor.GetByte | lib/sector_io/td0.cc:387-434 | one more byte of the expansion of what the input has been read to say from its first bit on; a token is read only when all before it is handed out, and then a symbol below 256 is itself the byte, and any other symbol s and position x begin s - 253 bytes from x + 1 back; none only when all tokens of the input have been handed out |
| Teledisk.Decompressor.GetBytes | lib/sector_io/td0.cc:387-434 | calls in a row hand out the next bytes of that expansion, or all that are left of it |
| Teledisk.Decompressor.OutputIsExpansion | lib/sector_io/td0.cc:387-434 | what has been handed out is a beginning of the expansion of tokens with which the input begins, and all of it between copies |
| Teledisk.Decompressor.OutputBeginsAll | lib/sector_io/td0.cc:387-434 | however the calls were made, it is a beginning of the expansion of all tokens of the input |
| Teledisk.Decompressor.OutputIsAll | lib/sector_io/td0.cc:387-434 | at the end of the input it is all of that expansion |
| Teledisk.Decompressor.RunsAgree | lib/sector_io/td0.cc:387-434 | two decompressors over one input never hand out different bytes |
| Teledisk.Decompress | lib/sector_io/td0.cc:387-434 | for every input, calls in a row come to an end, with the whole expansion of the tokens it encodes |
| TokenStream.TokenUnique | lib/sector_io/td0.cc:387-420 | at any place in any tree the bits spell at most one token |
| TokenStream.BeginsUnique | lib/sector_io/td0.cc:387-434 | of two readings of one input the shorter begins the longer |
| TokenStream.EncodesUnique | lib/sector_io/td0.cc:387-434 | an input encodes one list of tokens |
| TokenStream.FewTokens | lib/sector_io/td0.cc:331-354 | every token takes a bit, so that an input has no more tokens than bits |
| TokenStream.Produced | lib/sector_io/td0.cc:404-429 | at any point of the reading of an input, the next symbol puts out itself if it is below 256, and otherwise s - 253 bytes that repeat those x + 1 places back |
| Lzss.CopyRunRepeats | lib/sector_io/td0.cc:421-429 | a copy that overlaps what it produces repeats the last bytes with the period of its distance |
| Lzss.RingPush | lib/sector_io/td0.cc:426-427 | the ring stays the last 4096 bytes of the history |
| Lzss.PositionDecoded | lib/sector_io/td0.cc:368-376 | the table lookups and shifts give the position whose codeword was read |
| Lzss.PositionFirstByte | lib/sector_io/td0.cc:368-376 | the first byte of a position's codeword gives away how long it is |
| Lzss.PositionPrefixFree | lib/sector_io/td0.cc:113-142 | no codeword of a position begins that of another, whatever their lengths |
| Lzss.PositionsInOrder | lib/sector_io/td0.cc:113-142 | the codewords of the positions in order are those of a canonical code: each is the number after the one before, with a zero behind where it is longer |
| Lzss.PositionLengths | lib/sector_io/td0.cc:113-142 | 64 positions have 9 bits, 192 have 10, 512 have 11, 768 have 12, 1536 have 13 and 1024 have 14 |
| Fstrcmp.Comparer.MidSnake | lib/fstrcmp.cc:68-192 | a snake in the middle of an optimal path and the exact number of edits; the final assertion is never reached |
| Fstrcmp.Comparer.ForwardPass | lib/fstrcmp.cc:106-144 | either the middle snake, or the furthest forward points of this many edits on every diagonal, none of which meets a reverse path |
| Fstrcmp.Comparer.ReversePass | lib/fstrcmp.cc:146-184 | the same from the far corner |
| Fstrcmp.Comparer.FindSnake | lib/fstrcmp.cc:204-257 | the snakes appended are in order, are matches, leave exactly the least number of edits, and fit the table |
| Fstrcmp.Comparer.Around | lib/fstrcmp.cc:220-234 | the snakes before, of and after the middle one together are those of the region |
| Fstrcmp.Comparer.Tally | lib/fstrcmp.cc:321-337 | inserts, deletes and matches add up to the two lengths |
| Fstrcmp.Comparer.Allocate | lib/fstrcmp.cc:293-307 | the tables are large enough for both strings |
| Fstrcmp.Comparer.Compare | lib/fstrcmp.cc:260-354 | the snakes are a longest common subsequence, deletes and inserts are what it leaves of the two strings, and the result is twice its length over the two lengths, or 1 for two empty strings |
| Fstrcmp.LongestExactly | lib/fstrcmp.cc:260-354 | a common subsequence is a longest one if and only if it leaves as many edits as the distance |
| Fstrcmp.LikenessRange | lib/fstrcmp.cc:339-353 | between 0 and 1; 1 exactly for equal strings, 0 exactly for strings with no character in common |
| Fstrcmp.ForwardExhausted | lib/fstrcmp.cc:106-144 | when no forward path of so many edits meets a reverse one, the distance is larger |
| Fstrcmp.ReverseExhausted | lib/fstrcmp.cc:146-184 | the same for the reverse pass |
| FurthestPaths.FurthestStep | lib/fstrcmp.cc:112-127 | from the furthest points of one edit less on the neighbouring diagonals, the furthest point of this diagonal |
| FurthestPaths.MeetExists | lib/fstrcmp.cc:68-192 | at the distance of the strings some diagonal of the right parity is shared by a forward and a reverse path |
| FurthestPaths.MeetOptimal | lib/fstrcmp.cc:133-143 | where two paths overlap they join into an optimal one |
| SnakeLists.ChainCommon | lib/fstrcmp.cc:308-337 | the matched pairs of a chain of snakes are a common subsequence |
| EditDistance.CommonBound | lib/fstrcmp.cc:260-354 | a common subsequence is no longer than the distance allows |
| EditDistance.CommonReached | lib/fstrcmp.cc:260-354 | and some common subsequence is as long |
| EditDistance.Halfway | lib/fstrcmp.cc:62-67 | every optimal path has a point with any given number of its edits behind it |
| SectorMap.MapBijective | lib/sector_io/apple.cc:31-41 | both interleaves permute the sectors of every track, for any number of tracks |
| SectorMap.PdpBijective | lib/sector_io/pdp.cc:56-106 | the PDP pattern with its skew permutes the 26 sectors of each track |
| SectorMap.PdpTracksInOrder | lib/sector_io/pdp.cc:56-106 | sector 0 stays, and the first sector of each track lies six on from that of the track before |
| SectorMap.PdpInOrder | lib/sector_io/pdp.cc:56-106 | each further sector of a track lies two on from the one before, but for the first odd one |
| SectorMap.AppleInOrder | lib/sector_io/apple.cc:31-41 | the first and the last sector of a track stay, sector 1 is 14, and each of the others lies one back from the one before |
| SectorMap.SizeIs | lib/sector_io/offset.cc:74-82 | a stack shows just the whole sectors of its medium, or of what is left behind an offset |
| SectorMap.PdpMapsWithin | lib/sector_io/pdp.cc:56-106 | all sectors are mapped within the medium if and only if there are whole tracks, or 1 or 25 sectors of a track that is not skewed |
| SectorMap.AppleMapsWithin | lib/sector_io/apple.cc:31-41 | the same of the Apple pattern, for whole tracks and for 1 or 15 sectors of the last |
| SectorMap.PdpMultipleFails | lib/sector_io/pdp.cc:180-185 | a size the filter calls a multiple of what it needs, and a sector mapped past its end |
| SectorMap.ShuffleSector | lib/sector_io/pdp.cc:127-139 | writing a sector through the filter overwrites exactly the mapped sector |
| SectorMap.ShuffleReadSector | lib/sector_io/apple.cc:63-72 | reading a sector through the filter gives the mapped sector |
| SectorView.ViewPut | lib/sector_io/write.cc:28-102 | a stack shows exactly what was put into it |
| SectorView.PutView | lib/sector_io/write.cc:28-102 | putting back what a stack shows changes no byte of the image |
| SectorView.PutPut | lib/sector_io/write.cc:28-102 | the last of two puts wins |
| SectorView.ViewWritten | lib/sector_io/write.cc:28-102 | after a write the flat bytes are the old ones overlaid with the data |
| SectorView.WrittenOffset | lib/sector_io/offset.cc:67-71 | writing through an offset layer is writing further along below it |
| SectorIo.Disk.ReadSector | lib/sector_io/pdp.cc:109-124 | the bytes the stack shows at the sector |
| SectorIo.Disk.WriteSector | lib/sector_io/pdp.cc:127-139 | the image becomes the one with the sector written through the stack |
| SectorIo.Disk.Read | lib/sector_io/offset.cc:52-56 | any bytes the stack shows, whatever its layers |
| SectorIo.Disk.Write | lib/sector_io/offset.cc:67-71 | the image becomes the one with these bytes written through the stack |
| SectorIo.Disk.SectorRead | lib/sector_io/read.cc:28-106 | any position and length, aligned or not |
| SectorIo.Disk.SectorWrite | lib/sector_io/write.cc:28-102 | any position and length; partial sectors are read, changed and written back |
| SectorIo.Disk.WritePartial | lib/sector_io/write.cc:46-65 | part of a sector is read, replaced and written back, and only that part changes |
| SectorIo.Disk.WriteZero | lib/sector_io/write_zero.cc:27-95 | the same image as writing that many zeros |
| SectorIo.Disk.RelocateSectors | lib/sector_io/relocate.cc:42-87 | the old bytes arrive at the new place even when the two overlap; nothing else changes |
| SectorIo.Disk.RelocateBytes | lib/sector_io/relocate.cc:25-39 | the same in bytes, for whole sectors |
| SectorIo.MoveUp | lib/sector_io/relocate.cc:52-68 | moving one more sector downwards on the medium continues a move from its start |
| SectorIo.MoveDown | lib/sector_io/relocate.cc:71-85 | moving one more sector upwards continues a move from its end |
| Devices.Device.RelocateBlocks | lib/directory/entry/file.cc:595-602 | every sector size divides a block, so whole blocks can be moved on any stack |
| DirectoryFormat.WordRoundTrip | lib/byte_sex.cc:37-84 | what is put as a word in either byte order is got back |
| DirectoryFormat.DateRoundTrip | lib/directory/entry.cc:51-116 | dates of the calendar from 1970 to 2069 survive the packed word |
| DirectoryFormat.DateRead | lib/directory/entry.cc:51-84 | any word is read as such a date, days and months out of range running over, but for the exact words that run over before 1970 or after 2069 |
| DirectoryFormat.EntryRoundTrip | lib/directory/entry/file.cc:142-200 | an entry read from where it was stored is that entry, whatever follows |
| DirectoryFormat.LabelRoundTrip | lib/directory/entry/volume_label.cc:103-166 | the same for the label, its unused words included, and at most seven bytes of its name |
| DirectoryFormat.DirectoryRoundTrip | lib/directory.cc:51-114 | reading a stored directory recovers the byte order, the label and all entries in order, for labels of any size the byte order can be told from |
| DirectoryFormat.EntryPlaces | lib/directory/entry/file.cc:188-200 | where the bytes of each field of a stored entry are, in either byte order |
| DirectoryFormat.LabelPlaces | lib/directory/entry/volume_label.cc:148-166 | the same of a stored label |
| DirectoryFormat.DirectoryPlaces | lib/directory.cc:274-304 | the label comes first, the entries in order in slots of 26 bytes behind it, and zeros last |
| DirectoryFormat.BitsRead | lib/directory/entry/file.cc:176-185 | of the kind word of any slot the low three bits and the highest one are read, and of the last byte the low ten |
| DirectoryFormat.NameRead | lib/directory/entry/file.cc:181-182 | a name is as long as the byte before it says, with slashes as underscores |
| DirectoryFormat.MaxEntriesFit | lib/directory/entry/volume_label.cc:285-295 | a label allows as many files as fit with it into its blocks from the third on |
| DirectoryFormat.BufferHoldsAll | lib/directory/entry/volume_label.cc:285-295 | every directory the label allows fits the buffer if and only if the label has six blocks |
| DirectoryFormat.BufferOverflows | lib/directory/entry/volume_label.cc:285-295 | any larger label allows at least 78 files, and exactly up to 77 fit |
| DirectoryEntries.PutWord | lib/byte_sex.cc:61-84 | two bytes of the buffer become the word in that order, no other byte changes |
| DirectoryEntries.FileEntry.constructor | lib/directory/entry/file.cc:41-59 | a new file at the given blocks, its name cut to fifteen bytes |
| DirectoryEntries.FileEntry.FromBytes | lib/directory/entry/file.cc:142-186 | the fields are those of the stored entry |
| DirectoryEntries.FileEntry.MetaWrite | lib/directory/entry/file.cc:188-200 | into zeros, the 26 stored bytes of the entry, and nothing else; a name too long for its slot runs on into the next |
| DirectoryEntries.FileEntry.SetLength | lib/directory/entry/file.cc:356-363 | the fields of a file of the given size: all blocks but the last are full, and the last has from 1 to 512 bytes |
| DirectoryEntries.FileEntry.Relocate | lib/directory/entry/file.cc:584-609 | the blocks of the file are moved as one, and the answer tells whether it was anywhere else |
| DirectoryEntries.VolumeLabel.constructor | lib/directory/entry/volume_label.cc:71-92 | a label of six or ten blocks over the whole device |
| DirectoryEntries.VolumeLabel.FromBytes | lib/directory/entry/volume_label.cc:103-145 | the fields are those of the stored label |
| DirectoryEntries.VolumeLabel.MetaWrite | lib/directory/entry/volume_label.cc:148-166 | into zeros, the 26 stored bytes of the label, at most seven of its name |
| DirectoryEntries.EntryList.PushBack | lib/directory/entry/list.cc:43-58 | the entry is last, all others keep their places, through any growth of the array |
| DirectoryEntries.EntryList.Nth | lib/directory/entry/list.cc:61-68 | the entry at a place, or none past the end |
| DirectoryEntries.EntryList.IndexOf | lib/directory/entry/list.cc:120-130 | the first place of the entry, or -1 exactly when it is not there |
| DirectoryEntries.EntryList.Erase | lib/directory/entry/list.cc:133-155 | its first occurrence is gone and the order of the rest is kept |
| Extents.Snug | lib/directory/entry/file.h:264-284 | a file has exactly the blocks its size needs |
| Extents.SizeRoundTrip | lib/directory/entry/file.cc:359-362 | the fields computed for a size give that size back |
| Extents.BlocksEnough | lib/directory/entry/file.cc:359-362 | a file has the fewest blocks its bytes fit into |
| Extents.GapBound | lib/directory.cc:476-486 | a file cannot reach further than the room all other files leave |
| Extents.SlidLayout | lib/directory.cc:415-437 | at every step of moving the gap the files are in order, disjoint and within the volume |
| Extents.GapIsAll | lib/directory.cc:415-453 | afterwards the gap behind the file is all the free blocks |
| Extents.MoveKeeps | lib/directory/entry/file.cc:584-609 | a move to where no other file lies keeps the bytes of every file, overlapping itself or not |
| VolumeState.OwnBytes | lib/directory/entry/file.h:264-284 | the size of a file is how many bytes of its extent it holds, the extent size is that of all its blocks, and both lie before the next file and within the medium |
| VolumeState.OwnFields | lib/directory/entry/file.h:264-284 | name, kind, status and date of a file are those of its entry, and so is its size |
| VolumeState.SyncKeeps | lib/directory.cc:261-325 | storing the directory changes no file, and the medium then says what memory says |
| VolumeState.SyncedReads | lib/directory.cc:51-114 | reading that directory gives back byte order, label and entries |
| VolumeState.SlideDown | lib/directory.cc:416-425 | one file moved down keeps all files and the layout |
| VolumeState.SlideUp | lib/directory.cc:428-437 | one file moved up likewise |
| VolumeState.RewrittenFiles | lib/directory/entry/file.cc:539-551 | a write within the room of one file and its new length change that file alone |
| VolumeState.NowTruncated | lib/directory/entry/file.cc:344-363 | the file becomes its old bytes cut or extended with zeros |
| VolumeState.TruncateMeans | lib/directory/entry/file.cc:304-369 | what truncating one of a list of files comes to, byte for byte: refused exactly for a negative size or for lack of blocks |
| VolumeState.WriteMeans | lib/directory/entry/file.cc:400-565 | the same of writing |
| VolumeState.NowOverlaid | lib/directory/entry/file.cc:445-478 | a write starting at or before the end lays the data over the old bytes |
| VolumeState.NowGrown | lib/directory/entry/file.cc:531-551 | a write past the end fills the hole with zeros |
| VolumeState.HolesExactly | lib/directory/entry/file.cc:457-474 | a write into the hole of the last block does so if and only if the block can be read, the data end before it does, the skipped bytes are zeros, and the offset is even or all data are the stale byte there |
| VolumeState.HoleFails | lib/directory/entry/file.cc:457-474 | a volume of one file with its directory stored, and a write after which a stale byte is part of the file |
| VolumeState.AbortsExactly | lib/directory/entry/file.cc:465-469 | a write fails the assertion if and only if it is into the hole and reaches the end of the last block, and the offset is even or the file does not end with the medium |
| VolumeState.AbortsThere | lib/directory/entry/file.cc:465-469 | the same volume, and a write that fails the assertion |
| VolumeState.StaleMounted | lib/directory.cc:51-114 | reading the directory on the medium of that volume gives just that volume |
| VolumeState.ReadableUnlessLast | lib/directory/entry/file.cc:464-467 | the reading fails exactly at an odd offset of a file that ends where the medium ends |
| VolumeState.RoomBlocks | lib/directory.cc:490-498 | the room of a file, counted on the bytes of the others, is that of the entries |
| Wiping.WipeFile | lib/directory.cc:559-567 | clearing after the last byte of a file clears no byte of any file |
| Wiping.WipeBlock | lib/directory.cc:552-557 | clearing a block between two files likewise |
| Wiping.WipedKeeps | lib/directory.cc:531-584 | wiping changes the bytes of no file |
| Volumes.Volume.MkFs | lib/directory.cc:242-258 | a fresh volume is valid, its directory stored, its label over the whole device, and it has no files |
| Volumes.Volume.MetaRead | lib/directory.cc:51-114 | the objects hold what the stored directory says, or the program gives up, exactly when the label leaves no block for a directory or a listed slot has no name; the volume is valid if and only if what is stored is sound, whatever lies in bytes the reading ignores |
| Volumes.Volume.MetaSync | lib/directory.cc:261-325 | the 2048 bytes from byte 1024 on, and those after them with a ten-block label, become the directory of the objects; no other byte of the medium changes, and no file does |
| Volumes.Volume.MoveDown | lib/directory.cc:415-425 | the files up to the given one are packed against the label, and keep their bytes |
| Volumes.Volume.MoveUp | lib/directory.cc:427-437 | those after it are packed against the end of the volume |
| Volumes.Volume.MoveGapAfter | lib/directory.cc:395-454 | on any volume with ordered, disjoint files, exact new places of all of them, none of which changes; the gap returned is all blocks no file uses, and lies behind the file; either nothing has changed or the directory is stored |
| Volumes.Volume.Crunch | lib/directory.cc:386-392 | all files packed against the label in order, none changed; the gap returned is all blocks no file uses, or 0 without files; either nothing has changed or the directory is stored |
| Volumes.Volume.SizeofGapAfter | lib/directory.cc:457-487 | the blocks between a file and the next, or the end |
| Volumes.Volume.CalcUsedBlocks | lib/directory.cc:489-498 | the label's blocks and those of all files |
| Volumes.Volume.MakeRoom | lib/directory/entry/file.cc:312-342 | succeeds if and only if the size fits the blocks the other files leave; moves nothing when the gap suffices, and stores the directory when it has moved anything |
| Volumes.Volume.Truncate | lib/directory/entry/file.cc:304-369 | EINVAL exactly for a negative size, ENOSPC exactly when it needs more blocks than the other files leave, both of which change no file; else the file has just that many bytes, its old ones and then zeros, all other files are as before, and the directory is stored |
| Volumes.Volume.Read | lib/directory/entry/file.cc:383-397 | the bytes of the file from the offset on, as many as asked for or as it has; EINVAL for a negative offset |
| Volumes.Volume.WriteInside | lib/directory/entry/file.cc:418-436 | data over bytes the file has |
| Volumes.Volume.WriteToEnd | lib/directory/entry/file.cc:445-482 | data from within the file to a place in its last block |
| Volumes.Volume.WriteInHole | lib/directory/entry/file.cc:457-482 | what the code does there, byte for byte: ENOSPC when the block cannot be read, and the failed assertion when the data reach its end |
| Volumes.Volume.WriteGrowing | lib/directory/entry/file.cc:527-551 | data beyond the blocks of the file, any hole filled with zeros |
| Volumes.Volume.WriteBeyond | lib/directory/entry/file.cc:484-565 | a write that needs more blocks gets them, or fails exactly when the other files leave too few |
| Volumes.Volume.Write | lib/directory/entry/file.cc:400-565 | a write that is not into a hole is refused with EINVAL exactly for a negative offset and with ENOSPC exactly for lack of blocks, and changes no file then; else the data lie at the offset, the old bytes around them and zeros in between, all other files are as before, and the directory is stored, even when the file is moved on the way; into a hole, it does what the code says byte for byte |
| Volumes.Volume.MkNod | lib/directory/entry/volume_label.cc:216-237 | ENOSPC exactly when the label allows no more files, which changes none; else an empty file with at most fifteen bytes of the name, the kind and the date at the end of the list, and the directory stored |
| Volumes.Volume.Unlink | lib/directory/entry/file.cc:239-246 | the file is gone, the others and their order are kept, and the directory is stored |
| Volumes.Volume.WipeUnused | lib/directory.cc:531-584 | every byte of the volume that is not one of the bytes of a file is zero, all others are unchanged; the directory is stored afterwards if and only if it was before |
| FileSystem.Step | lib/directory/entry/file.cc:304-565 | any operation on a volume is that operation on a plain list of files that share blocks; a write into a hole changes its own file alone, keeps the bytes it had, and puts the data there, or is refused, or ends the program; a stored directory stays so, and operations that change a file store it |
| FileSystem.RunOn | lib/directory.cc:336-454 | any run of operations on any volume with ordered, disjoint files, up to where the program ends if it does, keeps the layout, and comes to replies and files the same run may make of a plain list; it ends early only in a write that fills the block of a hole; the directory is stored at the end if it was at the start or any operation has stored it |
| FileSystem.RunMounted | lib/directory.cc:51-114 | the same from the mounting of any medium whose stored directory is sound |
| FileSystem.PlainRuns | lib/directory/entry/file.cc:304-565 | without writes into holes, there is one such list and one reply to each operation, those the operations give in turn |
| FileSystem.RunIsolation | lib/directory/entry/file.cc:400-565 | over a whole run, a file no operation is on keeps its name, date and bytes |
| FileSystem.SpaceKept | lib/directory/entry/file.cc:527-551 | no run makes the files outgrow the volume |
| FileSystem.WriteThenRead | lib/directory/entry/file.cc:383-397 | what was written is what is read |
| FileSystem.Remount | lib/directory.cc:51-114 | mounting the medium again, at any time the directory is stored, shows the same files and label, of whose name seven bytes are stored |
| TextFormat.NormalPlain | lib/output/text_decode.cc:75-179 | the normal form has no tabs left to expand |
| TextFormat.NormalTwice | lib/output/text_decode.cc:75-179 | the normal form of any text is its own normal form |
| TextFormat.NextStopIs | lib/output/text_encode.cc:84-98 | the next tab stop of a column is a multiple of eight, at most eight further on |
| TextFormat.TabStands | lib/output/text_encode.cc:84-98 | in the expanded form a tab is from one to eight spaces, and what follows it stands at a multiple of eight |
| TextFormat.ColumnExpanded | lib/output/text_encode.cc:84-98 | expanding tabs leaves everything in its column |
| TextEncode.TextEncoder.constructor | lib/output/text_encode.cc:53-65 | a header of 1024 NULs, at the start of a block |
| TextEncode.TextEncoder.LineCharacter | lib/output/text_encode.cc:75-169 | one more character of a line, in all cases (tab, space, DLE, NUL, printable or not), as the function the round trip is proved about; a tab goes on to the next multiple of eight |
| TextEncode.CharacterIs | lib/output/text_encode.cc:75-169 | what each character does to a line: NUL and DLE nothing, leading white space only counts, all else comes after the indentation |
| TextEncode.ShownIs | lib/output/text_encode.cc:152-166 | a character that cannot be printed becomes a backslash, an x and the two hexadecimal digits of its code |
| TextEncode.TextEncoder.PutIndent | lib/output/text_encode.cc:112-150 | the indentation as DLE pairs and spaces, for any column |
| TextEncode.IndentIs | lib/output/text_encode.cc:112-150 | pairs of 223 columns while there are as many, and one for the rest unless two spaces or less will do |
| TextEncode.TextEncoder.WriteOneLine | lib/output/text_encode.cc:172-237 | a line, padded into the next block when it does not fit, and split when it fits none |
| TextEncode.LineGoes | lib/output/text_encode.cc:172-237 | a line goes where it fits, behind NULs up to the next block of 1024 bytes when it does not, and in pieces when it fits none; with the guarantee a block has room for 1023 |
| TextEncode.TextEncoder.WriteInner | lib/output/text_encode.cc:240-253 | the state after a piece of input, which depends on all input so far and not on its pieces |
| TextEncode.TextEncoder.Close | lib/output/text_encode.cc:28-50 | the last line and NULs up to the end of the block |
| TextEncode.FeedAppend | lib/output/text_encode.cc:240-253 | two pieces are encoded as their concatenation is |
| TextEncode.FeedMore | lib/output/text_encode.cc:240-253 | newlines and returns end a line, and no other character does |
| TextBlocks.EncodedInBlocks | lib/output/text_encode.cc:28-66 | with the NUL guarantee, any input gives a NUL header and whole blocks, each complete lines followed by NULs, at least one |
| TextBlocks.BlockedEach | lib/output/text_encode.cc:172-237 | so does every block by its number |
| TextBlocks.ChoppedBlocked | lib/output/text_encode.cc:202-223 | over-long lines are split into such blocks too |
| TextBlocks.EncodedWhole | lib/output/text_encode.cc:28-50 | with the guarantee or without it, whole blocks come out |
| TextDecode.TextDecoder.IsTextBuffer | lib/output/text_decode.cc:61-72 | each of the first sixteen bytes, those aside that have only NULs from them on, is printable, white space or a DLE |
| TextDecode.TextDecoder.PutCharacter | lib/output/text_decode.cc:109-177 | one byte of text, a DLE that stands for itself included |
| TextDecode.PlainDecodes | lib/output/text_decode.cc:95-177 | of input without NULs and DLEs only the returns are changed, into newlines |
| TextDecode.DleDecodes | lib/output/text_decode.cc:109-130 | a DLE before a control character stands for itself, and that character is looked at once more |
| TextDecode.TextDecoder.PutLead | lib/output/text_decode.cc:153-171 | the indentation in tabs and spaces |
| TextDecode.LeadIs | lib/output/text_decode.cc:153-171 | a tab for every eight columns, then spaces |
| TextDecode.TextDecoder.WriteInner | lib/output/text_decode.cc:75-179 | a piece of input, with the header skipped or not |
| TextRoundTrip.RoundTrip | lib/output/text_decode.cc:75-179 | for tab, newline and printable text whose lines fit a block, decoding what was encoded, in any pieces, gives its normal form |
| TextRoundTrip.RoundTripWithTabs | lib/output/text_decode.cc:153-171 | with tabs on, it does so up to the expansion of tabs |
| TextRoundTrip.TabsAgree | lib/output/text_decode.cc:153-171 | on any input without tabs, the tabs put out stand for just the spaces put out without them |
| TextRoundTrip.ChunksDoNotMatter | lib/output/text_decode.cc:80-93 | a file that begins with 1024 NULs is decoded the same way however it is cut up |
| TextRoundTrip.FirstPieceDecides | lib/output/text_decode.cc:80-93 | of any file, only the look of the first piece matters |
| TextRoundTrip.CuttingsAgree | lib/output/text_decode.cc:80-93 | two ways of cutting up a file are decoded the same if and only if their first pieces look alike, or skipping 1024 bytes makes no difference |
| TextRoundTrip.CuttingsDiffer | lib/output/text_decode.cc:80-93 | two bytes that are decoded differently one by one and at once |
| TextRoundTrip.LineDecodes | lib/output/text_encode.cc:75-169 | an encoded line is decoded to its normal form |
| OutputBuffer.Output.Fputc | lib/output.h:121-128 | one more byte, handed on or buffered |
| OutputBuffer.Output.Overflow | lib/output.cc:109-124 | a full buffer is handed on before the byte is put in |
| OutputBuffer.Output.Write | lib/output.cc:146-174 | all bytes put in are those handed on and those buffered, in order; no empty piece is handed on |
| OutputBuffer.Output.Flush | lib/output.cc:177-188 | everything has been handed on |
| TextFilter.EncodeCalls | lib/output/text_encode.cc:28-66 | whatever mixture of characters and strings is put into the buffer of an encoder, the file is the encoding of all of them |
| TextFilter.DecodeCalls | lib/output/text_decode.cc:24-31 | however an encoded file is put into the buffer of a decoder, the text comes out in its normal form, with tabs on once they are expanded |
| TextFilter.ThereAndBack | lib/output/text_decode.cc:75-179 | writing a text and reading it again, both through their buffers, gives its normal form |
| Gizzards.HashGenerate | lib/rcstring/gizzards.cc:57-72 | the 64-bit hash of the last twenty characters, which are signed |
| Gizzards.HashMore | lib/rcstring/gizzards.cc:57-72 | up to twenty characters, each further one makes the hash three times what it was, with the bits of the character |
| Gizzards.HashLast | lib/rcstring/gizzards.cc:57-72 | of a longer string only the last twenty count |
| Gizzards.WidenedIs | lib/rcstring/gizzards.cc:57-72 | a character has its eight bits, and its sign in all higher ones |
| Gizzards.MaskIsRemainder | lib/rcstring/gizzards.cc:164-164 | masking with a power of two less one is the remainder |
| Gizzards.Table.constructor | lib/rcstring/gizzards.cc:75-84 | an empty table of 256 buckets |
| Gizzards.Table.FromC | lib/rcstring/gizzards.cc:156-213 | the one node of the string, new or old, with one handle more; the load stays at most 80 percent |
| Gizzards.Table.Copy | lib/rcstring/gizzards.cc:216-221 | one more handle to the same node |
| Gizzards.Table.Free | lib/rcstring/gizzards.cc:224-262 | one handle less, the node gone with the last; the final assertion is never reached |
| Gizzards.Table.Split | lib/rcstring/gizzards.cc:104-146 | twice as many buckets, every node in its own, none lost or doubled |
| Gizzards.Table.EqualIsSame | lib/rcstring/gizzards.h:179-184 | two live handles are the same pointer if and only if the strings are equal |
| QuoteShell.QuoteFrom | lib/rcstring/quote.cc:99-149 | the quoted string from a mode on, with every switch of quotes |
| QuoteShell.Quote | lib/rcstring/quote.cc:24-150 | both loops together give the string the round trip is proved about |
| QuoteShell.UnquotedIs | lib/rcstring/quote.cc:24-97 | a string is left as it is if and only if it has no white space and none of 24 characters |
| QuoteShell.FirstMark | lib/rcstring/quote.cc:24-97 | double quotes come first exactly when the first of these characters is a quote |
| QuoteShell.SingleUntil | lib/rcstring/quote.cc:99-149 | in single quotes everything up to the next quote is as it is, and that one is in double quotes |
| QuoteShell.DoubleUntil | lib/rcstring/quote.cc:99-149 | in double quotes five characters have a backslash, up to the next exclamation mark, which is in single quotes |
| QuoteShell.QuotedReads | lib/rcstring/quote.cc:99-149 | read from within its quotes, it is the string less the newlines met in double quotes |
| QuoteShell.RoundTrip | lib/rcstring/quote.cc:24-150 | it reads back as the one word it was made from if and only if it is not empty and no newline comes after a quote with no exclamation mark in between |
| QuoteShell.NewlineLost | lib/rcstring/quote.cc:99-149 | a quote followed by a newline reads back as the quote alone |

## Left out

- Teledisk.Decompressor.GetByte: the end of the input is an answer of its own, where the program stops with a message; the pass-through of uncompressed images and the byte counter are not modelled.
- BitReader.Reader.GetUnalignedByte: its branch for eight or more buffered bits is shown never to be taken.
- Volumes.Volume.MetaRead: reads at the lowest level of concern, at which nothing is checked or repaired; names and slots that run past the buffer, which the program reads all the same, are cut or given up.
- Volumes.Volume.MkNod: the name comes in upper case, with its kind already told from its extension, not empty and without a slash; a label of more than six blocks has fewer than 77 files, since the 78th entry would be stored past the end of the buffer.
- Volumes.Volume.Write: reads past what the stack shows fail; a failed assertion is an answer of its own and leaves the volume as it was.
- FileSystem.RunOn: files are named by their place, and new names are as for `MkNod`.
- DirectoryEntries.FileEntry.MetaWrite: a name that runs past the end of the whole buffer is not modelled.
- Volumes.Volume.Valid: the label reaches from block 0 to a block from 6 to 255, and there are at most 77 files, as many as the stored directory holds, in order and disjoint, with names of at most fifteen bytes and dates from 1970 to 2069; other directories are damaged.
- Volumes.Volume.MkFs: the name made from the time of day for an empty one.
- SectorIo.Disk.SectorRead: positions are not negative, and lie within what the stack shows; the check for EINVAL is not modelled.
- Gizzards.Table.Free: freed nodes are forgotten, not reused.
- QuoteShell.RoundTrip: strings end at their first NUL in the program; the model takes them as given. A percent sign is read as itself, and reserved words are not looked at.
- DirectoryFormat.DateRoundTrip: dates are year, month and day; local time is not part of this model.
- Integers of the volume and sector code are unbounded; block numbers fit 16 bits because the directory holds no others.
- `double` is modelled by `real` in the result of fstrcmp.
- FUSE callbacks, command lines, listings and messages: foreign calls and formatting.
- fsck and repair, which do not restore the layout; renaming, chmod, chown and times.
- Text files translated on the fly, and images read through mmap.
- TD0 and IMD headers, track records and checksums: format plumbing around the decompressor.
- The guessing of drive types and interleaves, and RT-11.
- The other operations on reference-counted strings and lists: they would only add easy members.

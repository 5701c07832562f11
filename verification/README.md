# LogitOS host tools: a verified model

LogitOS is built with a set of host-side tools: generators for video tables and test bitstreams,
packers for disk and boot images, a tokenizer, readers for files that arrive from elsewhere. Several of
them rest on an algorithm whose correctness is not visible in any one function. This project models
those algorithms in Dafny and proves what the tools and their documentation promise of them, for every
input or every run.

The themes, each with its modules:

- **Variable-length codes** (`Codewords`, `TwoLevelTable`, `BuildVlc`, `KraftCheck`, `SortedVlc`,
  `BitWriter`, `VlcStream`). `build_vlc` turns a code list into a two-level table. It accepts exactly
  the lists in which no codeword hides another, and the table then answers every 16-bit pattern with
  the codeword that prefixes it. The hole count that the coefficient check compares with the Kraft sum
  (in units of 2^-16) is right exactly when no codeword is listed twice. The sorted per-length form is
  searched by a second decoder; both read back whatever the bit writer wrote.
- **Motion vectors and slices** (`Motion`, `MotionSyntax`, `Residual`, `Slice`, `SliceReader`,
  `SliceWriter`). The slice bodies written by the interlaced MPEG-2 generator, and a reader with
  predictors of its own that follows sections 7.2 and 7.6.3 of ISO/IEC 13818-2. It recovers every
  macroblock and holds the writer's predictors in front of each.
- **Persistent identities** (`LogitFs`, `FsLayout`, `VolumeWalk`, `Subtree`, `WalkedTree`,
  `IdentityBlind`, `Identities`, `Convert`, `Repack`, `RepackExact`, `VolumeRuns`). `convert` and
  `preserve_identities` edit LogitFS images byte by byte. Over every run of one conversion and any
  accepted updates, identities are distinct, bounded by the counter in the root inode and never reused.
  Which volumes can be walked, what a walk finds and which updates are accepted is said exactly, in
  terms of the names that lead from the root to an inode.
- **FAT16 images** (`FatGeometry`, `FatTree`, `FatWriter`, `FatImage`, `FatReader`, `FatDisk`). The
  geometry search, the cluster allocator, the recursive directory writer with its late `..` patches
  and `serialize`, against a reader that knows only the on-disk format and refuses cycles, cross-links
  and wrong dot entries.
- **Byte-level BPE** (`Bpe`, `Utf8`, `Tokenizer`, `TokenRoundTrip`). The merge loop, the byte alphabet,
  `encode` and `decode`; the NFC and regex libraries are function parameters.
- **Packed syscall arguments** (`AbiPack`, `AbiExpr`, `AbiLayout`, with `Bitwise`). The field check, the
  emitted pack expression evaluated on 64-bit words with a trapping shift, the unpack macros, and
  `lay_out`.
- **Two readers of one file system** (`AuditReader`, `AuditAgreement`, `AuditWitness`). The licence
  audit's pointer-skipping reader against `payload`: exactly when they agree, and images on which they
  do not.
- **Copying a subtree** (`ImageBuilder`, `CopyTree`, `CopiedTree`). `copy_tree` into the image builder,
  with exactly what it refuses and what it copies.
- **GGUF** (`GgufCursor`, `GgufFile`, `GgufMemory`). The bounded cursor, the key and tensor tables,
  element access, with the 64-bit wrap-around of sizes and addresses.
- **QuickTime RLE** (`QtrleRuns`, `QtrleFrame`). The run finder and row-major framing against the
  decoder.
- **Program images** (`AexHeader`, `ElfImage`). Metadata records with the page-aligning pad, and the
  minimal ELF writer against a loader.
- **Token text** (`TokenText`, `TokenLines`). The serialisation of HTML token lists, byte by byte, and
  exactly which lists share one.

`Bits`, `Bytes`, `Buffers` and `Outcomes` hold the common vocabulary: powers of two and bit strings,
little-endian fields, what stands where in a buffer, and results that may raise. Code that updates
state in place is modelled by classes and loops, each proved against a function of its inputs; what the
tools promise is then proved about those functions.

The assumption that stands in for code outside the model is explicit: `IdentityBlind.Layout` is what
the file-system check guarantees about an image's superblock (the inode table lies behind the
superblock and in front of the data area, the root inode exists, the image reaches the data area).

Where the code does something other than a reader may expect, the code is followed and the exact
condition is proved:

- For arbitrary sector counts the FAT of `fat16_geometry` can lack its two reserved entries:
  `FatGeometry.OddSizeOverflows` (4161 sectors) and the exact condition in `FatHoldsClusters`. Whole
  mebibytes never hit it (`WholeMiBFits`).
- The licence audit's reader looks one pointer beyond a file's last block, so a stray pointer makes it
  raise although `payload` returns: `AuditWitness.StrayDiffers`. On an image that ends inside a block in
  front of the file's last one, both return but join different bytes: `AuditWitness.CutDiffers`.
  `AuditAgreement.ReadersAgree` has the exact condition for both, on the image's own fields, and
  `TidyAgree` a simple one that rules out the first.
- The GGUF reader promises to refuse a malformed file rather than read outside it, but its sizes and
  the sum of its bound check wrap at 2^64: `GgufMemory.SizeWraps`, `SumWraps` and `OffsetWraps` are
  files that open and are then read outside the file or its payload; `InsideFile` and `InsidePayload`
  say exactly which accepted tensors are safe.
- At the end of a stream the sorted search finds nothing, while the table decoder still sees zeros:
  `VlcStream.EndsDiffer`.
- `payload` on an image that ends early returns a shorter or shifted file: `LogitFs.PayloadBytes` has
  the exact condition, and `AuditWitness.CutDiffers` is such an image.
- `emit_elf` accepts any base; loading always works, but the text's file offset is congruent to its
  address only for a page-aligned one: `ElfImage.EmitElf`.
- The documentation of `tools/gen_html5lib_tok.py` calls its format injective. A DOCTYPE field that is
  the single NUL character reads like an absent one: `TokenText.NulCollides`, with the exact kernel of
  the serialisation in `SerializeInjective`.
- The unpack macros return an `int`: fields wider than 31 bits (32 if signed) cannot come back,
  `AbiExpr.CastExact`.

## Model

| member | source | states |
|---|---|---|
| BuildVlc.Build | tools/gen_mpeg12_tables.py:138-196 | returns if and only if every row fits its length of 1 to 16 and no codeword is a proper prefix of another (equal short codewords clash too); the table then answers every 16-bit pattern with the last row whose codeword prefixes it, or nothing |
| BuildVlc.AcceptableIsPrefixFree | tools/gen_mpeg12_tables.py:138-196 | for lists without repeated codewords, being accepted is the same as being prefix-free |
| BuildVlc.FindIsUnique | tools/gen_mpeg12_tables.py:138-208 | in a prefix-free list a codeword prefixes a pattern if and only if the lookup answers with that row |
| BuildVlc.DecodesIsLookup | tools/gen_mpeg12_tables.py:199-208 | decodes on 16 bits returns the symbol the two-level lookup hits, None where it misses |
| BuildVlc.PlacedMeansAcceptable | tools/gen_mpeg12_tables.py:154-191 | if the collision checks of both levels pass, no two rows clash |
| BuildVlc.AcceptableMeansPlaced | tools/gen_mpeg12_tables.py:154-191 | if no two rows clash, every second-level placement succeeds |
| TwoLevelTable.PlaceShort | tools/gen_mpeg12_tables.py:159-164 | a short codeword is placed if and only if it clashes with no earlier short one, and the first level then holds all of them |
| TwoLevelTable.AppendBlocks | tools/gen_mpeg12_tables.py:173-191 | the second level goes through if and only if no node's slot is a leaf and no two suffixes of a node collide, and every node then reaches its own block |
| KraftCheck.CoveredCount | tools/gen_mpeg12_tables.py:138-208 | the patterns some codeword prefixes number at most the Kraft sum, and exactly that without repeats |
| KraftCheck.HoleCount | tools/gen_mpeg12_tables.py:349-357 | the undecodable patterns number 65536 minus the Kraft sum if and only if no codeword is listed twice, and never fewer |
| KraftCheck.Undecodable | tools/gen_mpeg12_tables.py:353-353 | the comprehension lists exactly the patterns decodes answers with None, in increasing order |
| KraftCheck.FirstSixteen | tools/gen_mpeg12_tables.py:358-359 | the slice test on the first sixteen holes means that patterns 0 to 15 are all holes |
| KraftCheck.CoefficientCheck | tools/gen_mpeg12_tables.py:349-365 | the whole check passes if and only if the list builds, nothing is repeated, the twelve-zero prefix is reserved and no hole has fewer than seven leading zeros |
| SortedVlc.MakeVlc | tools/genmpeg4_tables.py:94-137 | the constructor returns if and only if the list is non-empty, lengths are at most 16 and no two rows conflict; it then holds the same rows in order |
| SortedVlc.CheckPrefixFree | tools/genmpeg4_tables.py:113-126 | the dictionary walk accepts if and only if no row repeats or prefixes another |
| SortedVlc.Offsets | tools/genmpeg4_tables.py:128-137 | off and cnt bracket the rows of each length |
| SortedVlc.ShorterComeFirst | tools/genmpeg4_tables.py:94-137 | in the sorted list a row is shorter than l if and only if its index is below the number of shorter rows |
| SortedVlc.Search | c/lib/video/mpeg4_bits.h:99-123 | one bit at a time with a binary search per length finds exactly the row whose word comes next, and nothing at the end of the stream |
| BitWriter.BW.Put | tools/genmpeg12_interlaced.py:80-90 | the writer's bits become the old bits followed by the value's bits, most significant first |
| BitWriter.BW.PutVlc | tools/genmpeg12_interlaced.py:92-93 | appends exactly the codeword |
| BitWriter.BW.PutSigned | tools/genmpeg12_interlaced.py:95-96 | appends the two's complement of the value |
| BitWriter.BW.Align | tools/genmpeg12_interlaced.py:98-100 | appends fewer than eight zero bits and ends on a byte boundary |
| BitWriter.BW.StartCode | tools/genmpeg12_interlaced.py:102-104 | appends alignment and then the four start-code bytes |
| VlcStream.WriteSymbols | tools/genmpeg12_interlaced.py:92-93 | writing a symbol sequence appends the concatenation of its codewords |
| VlcStream.ReadInvertsEncode | tools/gen_mpeg12_tables.py:199-208 | for a prefix-free code, reading the encoding of any symbol sequence anywhere in a stream returns the sequence |
| VlcStream.TableReadsReference | c/lib/video/mpeg12_int.h:88-104 | reading through the two-level table is reading by the reference decoder, on every stream |
| VlcStream.DecodersAgree | c/lib/video/mpeg4_bits.h:102-123 | before the end of any stream the sorted search answers what the table built from the same code answers; at the end it answers nothing |
| VlcStream.EndsDiffer | c/lib/video/mpeg4_bits.h:106-106 | at the end of a stream the table still hits an all-zero codeword, the search does not |
| VlcStream.RoundTrip | tools/genmpeg12_interlaced.py:74-104 | table and sorted form built from one code, any symbol sequence written after anything: reading exactly the written bits through that table and through that sorted form both returns the sequence, whatever follows |
| Motion.WrapDelta | tools/genmpeg12_interlaced.py:263-269 | both wrapping loops end and give the representative of the difference in [-16f, 16f-1] |
| Motion.MotionCodeInTable | tools/genmpeg12_interlaced.py:270-279 | the assertion never fires: every wrapped difference has a motion_code in 0 to 16, zero only for zero |
| Motion.MvDelta | tools/genmpeg12_interlaced.py:259-284 | appends code, sign and residual of the wrapped difference, for every wanted value, predictor and f_code |
| Motion.MvRoundTrip | tools/genmpeg12_interlaced.py:259-284 | a reader with any predictor in range recovers the wrapped vector, exactly where the bits end |
| Motion.DmvRoundTrip | tools/genmpeg12_interlaced.py:391-396 | the dual-prime difference reads back |
| Motion.PutDmvector | tools/genmpeg12_interlaced.py:391-396 | appends the dual-prime code of the value |
| SliceReader.VectorsRoundTrip | c/lib/video/mpeg12_slice.c:499-606 | every motion syntax (field, 16x8, dual prime, in field and frame pictures) written against any predictors in range reads back with a reader that updates PMV[r][s][t] on its own, and leaves it with the generator's next predictors |
| MotionSyntax.AfterVectorsOk | tools/genmpeg12_interlaced.py:420-445 | the predictors after a macroblock are in range, in frame pictures the vertical ones even |
| Residual.DcDiff | tools/genmpeg12_interlaced.py:108-118 | appends size code and differential of every DC difference |
| Residual.DcRoundTrip | tools/genmpeg12_interlaced.py:108-118 | the difference reads back |
| Residual.CoefEscape | tools/genmpeg12_interlaced.py:121-129 | appends escape, run and level |
| Residual.BlockRoundTrip | tools/genmpeg12_interlaced.py:121-133 | a block of escaped coefficients and its end code reads back, coefficient by coefficient |
| SliceReader.SliceRoundTrip | c/lib/video/mpeg12_slice.c:391-720 | for every slice the reader, with predictors, resets and component order of its own, recovers each macroblock and holds the generator's predictors in front of each one |
| SliceReader.ResidueRoundTrip | c/lib/video/mpeg12_slice.c:91-188 | the blocks a coded_block_pattern names, highest bit first, read back, the short first coefficient and the end of the scan included |
| Slice.TraceOk | tools/genmpeg12_interlaced.py:399-452 | along a whole slice the predictors stay in range, and in frame pictures the vertical ones stay even, so halving and doubling loses nothing |
| Slice.PredictorsInFront | tools/genmpeg12_interlaced.py:330-388 | in front of a macroblock stand, by the fields of the one before: its two vectors as the two predictor pairs, or its one vector twice, vertical parts doubled in frame pictures, and reset DC levels; after an intra macroblock zero vectors and its last luminance and two chrominance levels |
| Slice.AfterMbOk | tools/genmpeg12_interlaced.py:330-388 | one macroblock keeps the predictor invariant |
| SliceWriter.PutMb | tools/genmpeg12_interlaced.py:330-388 | one macroblock appends its bits and leaves the stated predictors |
| SliceWriter.PutSlice | tools/genmpeg12_interlaced.py:319-452 | the macroblock loop appends exactly the slice's bits |
| SliceWriter.WriteAndRead | tools/genmpeg12_interlaced.py:319-452 | a slice written after anything reads back exactly, whatever follows |
| LogitFs.ReadPayload | tools/disk_profile.py:53-68 | the pointer-collecting loops return the first size bytes under the block map, or raise exactly where the map cannot be followed |
| LogitFs.PayloadBytes | tools/disk_profile.py:53-68 | whenever payload returns, its result has the file's size and every byte is the one that the 12 direct, 1024 indirect and 1024 times 1024 double-indirect map names, if and only if the image holds every byte the file uses |
| LogitFs.ReadDirectory | tools/disk_profile.py:70-88 | the record loop returns the directory's entries or raises |
| LogitFs.DirectoryOk | tools/disk_profile.py:70-88 | the names of a directory that is returned are distinct, valid path components |
| FsLayout.InodeIs | tools/disk_profile.py:38-46 | an inode is returned if and only if its number is in range, eight bytes of it are there and its kind is 1 or 2; where it lies, and kind and size, by byte offsets |
| FsLayout.BlockIs | tools/disk_profile.py:48-51 | a block is returned if and only if it is a data block, and is then its 4096 bytes |
| FsLayout.MapIs | tools/disk_profile.py:58-67 | the pointer of logical block i by byte offsets of the inode and of the indirect blocks |
| FsLayout.PayloadReturns | tools/disk_profile.py:53-68 | payload returns if and only if the direct pointers are there and every block of the file has a pointer into the data area |
| FsLayout.DirectoryIs | tools/disk_profile.py:70-88 | a directory is returned if and only if its bytes are whole 64-byte records and every used one has a proper UTF-8 name that no other has; the entries are then the used records in order, number and name by byte offsets |
| VolumeWalk.Walker.Visit | tools/project_volume.py:53-57 | the recursive walk ends on every graph and fills rows and seen as the walk function says |
| VolumeWalk.WalkOk | tools/project_volume.py:53-58 | the rows name every inode visited exactly once, each under a path of its own, and the root under its own path |
| Subtree.VisitExact | tools/project_volume.py:53-57 | a visit that refuses a second meeting succeeds if and only if every name list leads to a readable, new inode and no two lead to the same one, and has then met exactly those inodes |
| WalkedTree.WalkExact | tools/project_volume.py:53-58 | the walk returns if and only if every name list from the root leads to a readable inode and no two to the same; its rows are then exactly the paths those lists spell, each with the inode it leads to |
| WalkedTree.WalkInOrder | tools/project_volume.py:53-58 | the rows stand in directory order, a directory in front of its contents |
| IdentityBlind.BlindReaders | tools/project_volume.py:39-80 | images that differ only in identity fields, version word and volume extension have the same tree, files and directories |
| Identities.StampEffect | tools/project_volume.py:77-77 | packing an identity into an inode changes that inode's three words to identity, revision and zero and nothing else |
| Identities.WordsAt | tools/project_volume.py:61-78 | identity, revision and counter are the 8-byte fields at 100, 108 and 116 of a 128-byte inode in the table that word 7 of the superblock names |
| Identities.SetCounterEffect | tools/project_volume.py:78-78 | writing the counter changes the root's third word only |
| Identities.SetVersionEffect | tools/project_volume.py:79-79 | writing version and extension leaves every identity word alone |
| Convert.ConvertVolume | tools/project_volume.py:20-32 | accepts exactly v4 volumes; every byte of the result is determined: version 5, the extension, for each used inode the number of used inodes up to it, revision 1 and a zero word, their count in the root, the source's bytes elsewhere |
| Convert.UsedMeans | tools/project_volume.py:28-29 | an inode is in use when the two bytes of its kind are not both zero |
| Convert.ConvertedDistinct | tools/project_volume.py:26-31 | different used inodes get different identities |
| Convert.ConvertedBounded | tools/project_volume.py:26-32 | identities are positive and at most the counter |
| RepackExact.PreserveIdentities | tools/project_volume.py:39-80 | the procedure succeeds if and only if the update is acceptable, and returns a repacked volume |
| RepackExact.PreserveAccepts | tools/project_volume.py:39-80 | an update is accepted if and only if the candidate is a v4 volume, both trees can be walked, no old path is gone, every old object keeps its kind and can be read in both, a changed file was asked for, a changed object has a revision left, and there are identities for the new objects |
| Repack.ModifiedMeans | tools/project_volume.py:66-70 | an object counts as modified if and only if the two payloads differ, for a directory the two sets of names |
| Repack.PreserveSound | tools/project_volume.py:39-80 | an accepted update keeps every old path with identity and kind, raises a revision by one exactly when the two payloads or name sets differ, changes only requested files, numbers new objects from the counter in walk order, zeroes the third words and leaves all other bytes of the candidate alone |
| VolumeRuns.ConvertGood | tools/project_volume.py:14-37 | conversion yields a volume with distinct identities at most the counter, the same tree and contents, every object at revision 1 |
| VolumeRuns.UpdateGood | tools/project_volume.py:39-80 | an accepted update of a good volume is good, evolves as promised, equals the candidate outside the identity bytes and keeps the volume extension |
| VolumeRuns.RunGood | tools/project_volume.py:14-80 | over every run every volume is good and everything an earlier volume holds survives in every later one with identity and kind, the counter never falling |
| VolumeRuns.NoReuse | tools/project_volume.py:14-80 | between any two moments of a run an identity names one path |
| VolumeRuns.LifeOfVolume | tools/project_volume.py:14-80 | conversion followed by any accepted updates: each update did exactly what an update promises, and every object ever seen is in the last volume |
| FatGeometry.FindGeometry | tools/mkesp.py:263-285 | returns the first cluster size whose cluster count is in the window, None only when none is |
| FatGeometry.FirstFitIs | tools/mkesp.py:263-285 | the result is the geometry with the smallest cluster of 1 to 128 sectors that suits: one reserved sector, two FATs of the least size with room for the rest, 4085 to 65524 clusters |
| FatGeometry.RegionsTile | tools/mkesp.py:277-282 | boot sector, both FATs, root directory and clusters follow each other within the image |
| FatGeometry.FatHoldsClusters | tools/mkesp.py:273-285 | the FAT always has an entry for every cluster, and for the two reserved ones as well if and only if its overshoot exceeds one cluster |
| FatGeometry.WholeMiBFits | tools/mkesp.py:263-285 | for every image size in whole MiB the chosen geometry has room for every cluster and both reserved entries |
| FatGeometry.OddSizeOverflows | tools/mkesp.py:263-285 | 4161 sectors give 4096 clusters and a FAT of exactly 4096 entries |
| FatTree.SlotFields | tools/mkesp.py:358-375 | name, attribute, cluster and size stand at their offsets of a directory entry |
| FatTree.SlotStamps | tools/mkesp.py:358-375 | creation, access and modification stamps stand at their offsets and the reserved fields are zero |
| FatTree.ShortNameIs | tools/mkesp.py:311-314 | the eleven bytes of a name one by one: up to its first dot, then what follows it, small letters raised, blanks elsewhere; refused if and only if more than 8 or 3 bytes or a byte from 128 on |
| FatTree.DotNames | tools/mkesp.py:309-310 | "." and ".." are themselves, padded |
| FatImage.Fat16.AllocChain | tools/mkesp.py:342-352 | refused exactly when the clusters run out; otherwise the FAT gains one chain of consecutive clusters ended by 0xFFFF and changes nowhere else |
| FatImage.Fat16.WriteClusterData | tools/mkesp.py:354-356 | the blob replaces the bytes at the cluster's offset |
| FatImage.Fat16.PutFile | tools/mkesp.py:427-431 | an empty file takes no cluster; any other takes one chain holding its bytes and zeros, or is refused exactly when it does not fit |
| FatImage.ChildSlots | tools/mkesp.py:443-445 | the payload loop leaves two free slots and then the children's entries |
| FatImage.MakeSubdir | tools/mkesp.py:434-453 | succeeds exactly when the directory fits; the directory's clusters hold its entries and every child directory's ".." now names it |
| FatImage.WriteDirectoryEntries | tools/mkesp.py:413-431 | succeeds exactly when the whole tree fits behind the allocator; then records, FAT links and bytes are the tree's and nothing else changed |
| FatWriter.PatchRegion | tools/mkesp.py:449-452 | patching every child directory turns a region written with ".." zero into the region for the real parent |
| FatWriter.SnocChild | tools/mkesp.py:413-431 | what one more child adds to records, links and bytes |
| FatReader.FollowChain | tools/mkesp.py:348-350 | a chain linked by the allocator is followed to its end, cluster by cluster |
| FatReader.ReadNodeBack | tools/mkesp.py:413-453 | a subtree laid out anywhere reads back, using exactly the clusters it was given, each once, with "." and ".." naming the directory and its parent |
| FatReader.ReadTreeBack | tools/mkesp.py:413-453 | the same for all children of a directory, in order |
| FatDisk.PackFat | tools/mkesp.py:397-399 | packing the FAT is refused exactly when an entry would lie behind the buffer |
| FatDisk.Serialize | tools/mkesp.py:384-410 | refused exactly when clusters plus two exceed the FAT; otherwise each part stands where the boot sector says, both FATs alike |
| FatDisk.MountAssembled | tools/mkesp.py:384-410 | a reader that parses the boot sector finds exactly the FAT, root directory and data that were serialised |
| FatDisk.BootFixed | tools/mkesp.py:386-395 | the bytes of the boot sector that mounting does not need, by offset |
| FatDisk.LinksShape | tools/mkesp.py:342-352 | every link names the next cluster or is 0xFFFF and never leaves the tree's clusters |
| FatDisk.FatSmall | tools/mkesp.py:342-352 | no link but the end mark reaches the reserved marks from 0xFFF7 |
| FatDisk.PlaceRoot | tools/mkesp.py:473-475 | the root entries are placed in order, refused exactly when the root directory is full |
| FatDisk.Build | tools/mkesp.py:456-478 | for every size in MiB and every tree: fails exactly when no geometry fits, a name is not 8.3, the root directory is full or the clusters run out; otherwise the format's reader returns exactly the tree with its bytes, every entry dated, using all allocated clusters once, and the other FAT entries are the two reserved marks and zeros |
| Bpe.RanksDistinct | tools/lmtok.py:156-156 | the ranks of any merge list are distinct |
| Bpe.RanksLast | tools/lmtok.py:156-156 | of a repeated pair the last position counts |
| Bpe.GetPairs | tools/lmtok.py:108-116 | exactly the adjacent pairs |
| Bpe.MinPair | tools/lmtok.py:224-224 | whatever order the set is walked in, no other pair comes before the one returned |
| Bpe.BestUnique | tools/lmtok.py:224-224 | with distinct ranks there is one best pair, so set order cannot matter |
| Bpe.MergePass | tools/lmtok.py:228-245 | the index-jumping pass is plain left-to-right non-overlapping replacement |
| Bpe.PassFirst | tools/lmtok.py:228-245 | a pass joins the first occurrence of the pair and goes on behind it |
| Bpe.PassNone | tools/lmtok.py:228-245 | without an occurrence a pass changes nothing |
| Bpe.PassShortens | tools/lmtok.py:228-245 | a pass over a pair that occurs shortens the word, also when both halves are equal |
| Bpe.MergedKeeps | tools/lmtok.py:201-249 | merging keeps the concatenation, ends with no ranked neighbours and creates only merge results |
| Bpe.BpeWord | tools/lmtok.py:201-249 | ends on every non-empty token with the one fully merged word; an empty token raises |
| Tokenizer.BytesToUnicode | tools/lmtok.py:83-101 | the loops give every byte its character and nothing else |
| Tokenizer.ByteCharIs | tools/lmtok.py:83-101 | printable bytes stand for themselves, the others for 256, 257 and so on in their order |
| Tokenizer.AlphabetBijective | tools/lmtok.py:104-105 | byte to character and back is the identity both ways |
| Tokenizer.ReverseVocab | tools/lmtok.py:149-152 | the length check raises if and only if two tokens share an id, and the reverse map inverts the vocabulary otherwise |
| Tokenizer.PieceKnown | tools/lmtok.py:259-272 | with all base characters and merge results in the vocabulary every merged symbol has an id |
| Tokenizer.EncodeChunk | tools/lmtok.py:251-273 | returns the ids of the merged symbols of all pretokens in order; the not-in-vocab error is never reached |
| Tokenizer.Decode | tools/lmtok.py:305-330 | returns the UTF-8 decoding, with replacement characters, of the concatenated token bytes, raising exactly on an unknown id or character |
| Utf8.DecodeEncode | tools/lmtok.py:330-330 | decoding the encoding of a text gives the text, with nothing replaced |
| Utf8.DecodeStep | tools/lmtok.py:330-330 | for every byte string: an encoded character in front decodes to it; otherwise the longest start of an encoding, or one byte if there is none, becomes one replacement character |
| Utf8.CutChar | tools/lmtok.py:330-330 | a character cut short anywhere becomes one replacement character, whatever follows |
| Utf8.BadBytes | tools/lmtok.py:330-330 | bytes that start nothing, and second bytes of overlong forms, surrogates and values beyond the last plane, by range |
| TokenRoundTrip.Chunks | tools/lmtok.py:281-292 | the chunk loop cuts the text at the added tokens |
| TokenRoundTrip.ChunksCover | tools/lmtok.py:281-292 | the chunks lose no character |
| TokenRoundTrip.Encode | tools/lmtok.py:275-302 | returns the ids of all chunks in order |
| TokenRoundTrip.DecodeWord | tools/lmtok.py:305-330 | decoding the ids of a word gives the bytes of its characters, wherever the symbols were cut |
| TokenRoundTrip.RoundTrip | tools/lmtok.py:201-330 | for every text, every placement of added tokens, every partitioning splitter and every complete one-to-one vocabulary the decoded bytes are those of the normalised text |
| TokenRoundTrip.EncodeThenDecode | tools/lmtok.py:275-330 | the ids of a text without added tokens, the empty text included, are those of its pretokens, and decoding these ids gives its normal form |
| AbiPack.ParsePackedFields | tools/gen_abi.py:379-399 | accepts if and only if every range is valid and all are pairwise disjoint |
| AbiPack.NeighboursSuffice | tools/gen_abi.py:393-398 | in shift order, neighbours that do not overlap mean that no two fields do |
| AbiPack.SortDisjoint | tools/gen_abi.py:395-395 | sorting does not change whether the fields are disjoint |
| AbiExpr.AsArgExpr | tools/gen_abi.py:426-444 | the emitted expression joins the fields' terms, highest first |
| AbiExpr.MaskedValue | tools/gen_abi.py:434-436 | masking the 64-bit pattern of any value, negative ones included, is the value modulo 2^width |
| AbiExpr.TermValue | tools/gen_abi.py:437-443 | no term traps: a plain shift is only used where its result is an i64 |
| AbiExpr.WrapNeeded | tools/gen_abi.py:437-443 | the wrapping shift is emitted exactly where the plain one would trap for some argument, and no shift exactly for the lowest field |
| AbiExpr.PackValue | tools/gen_abi.py:426-444 | the whole expression never traps and is the fields' bits side by side in one word |
| AbiExpr.UnpackPack | tools/gen_abi.py:460-489 | every macro applied to the packed word gives what its field can hold of its argument, cast to int |
| AbiExpr.RoundTrip | tools/gen_abi.py:426-489 | fields of at most 31 bits, 32 if signed, come back as the argument modulo 2^width, sign-extended if signed |
| AbiExpr.CastExact | tools/gen_abi.py:476-489 | the cast loses nothing for all values if and only if the field is that narrow |
| AbiExpr.InRangeHeld | tools/gen_abi.py:426-489 | a value in the field's range is what the field holds |
| AbiExpr.Isolated | tools/gen_abi.py:431-436 | a field's result does not depend on any other argument |
| AbiLayout.LayOut | tools/gen_abi.py:228-238 | aligned, non-overlapping offsets, pointwise the least of all such placements, and a size that no placement undercuts |
| AbiLayout.MaxAlignIs | tools/gen_abi.py:237-238 | the alignment of the whole struct is the widest of its members |
| AuditReader.SameInode | tools/license_audit.py:339-350 | both readers look at the same inode bytes |
| AuditReader.ReadFile | tools/license_audit.py:404-416 | the loop over the generator returns the bytes taken block by block, or raises when the generator does before the loop stops |
| AuditReader.StreamIsMap | tools/license_audit.py:352-371 | the generator starts with exactly the blocks of the block map |
| AuditAgreement.OverreachIsStray | tools/license_audit.py:352-371 | the generator's error reaches the loop if and only if some pointer block behind the file's last data slot (indirect, double-indirect or inner) is set but not whole in the file and every data pointer in between is zero |
| AuditAgreement.JoinedAgree | tools/license_audit.py:404-416 | cutting only the last block or cutting the joined blocks gives the same bytes if and only if no earlier block ends beyond the image while more of the last one is present than the file uses |
| AuditAgreement.ReadersAgree | tools/license_audit.py:339-416 | for every regular file whose payload returns, on whole and truncated images: the audit's reader raises if the image ends inside the inode or has such a stray pointer block; otherwise it returns, and the same bytes if and only if the image does not cut the file short as above |
| AuditAgreement.TidyAgree | tools/license_audit.py:339-416 | a file without pointers beyond its last block reads the same if and only if the image does not cut it short |
| AuditAgreement.WholeImage | tools/license_audit.py:404-416 | an image that holds all the blocks its superblock counts cuts no file short |
| AuditWitness.StrayDiffers | tools/license_audit.py:352-371 | on a volume that both readers open, with an entry in the root directory that leads to it, an empty file with a stray indirect pointer reads as empty with one and raises with the other |
| AuditWitness.CutDiffers | tools/license_audit.py:404-416 | on a volume that both readers open and that ends 4000 bytes into one block, a file of 4106 bytes found through the root directory reads differently with the two, and what payload returns is not the file its block map names |
| ImageBuilder.Builder.GetOrMakeDir | tools/mkfs.py:262-282 | adds exactly the missing directories; refused if and only if a name is too long, something other than a directory is in the way, or inodes run out |
| CopyTree.Source.CopyTree | tools/disk_profile.py:101-131 | ends on every graph; it succeeds if and only if the source subtree can be listed (every inode readable and met only once), the parent directories can be made, every listed path and name is short enough, nothing stands at it (in merge mode: nothing of another type) and the inodes suffice; then every inode of the subtree was visited once, their number is returned, and the builder's map is its old map overlaid with the source subtree |
| CopyTree.ListingBelow | tools/disk_profile.py:101-131 | a copied subtree touches only paths at or below its own |
| CopiedTree.ListingExact | tools/disk_profile.py:101-131 | a subtree can be listed if and only if every name list leads to a readable, new object and no two to the same; the listing then holds exactly what the lists name, each file with its payload, each directory with none, and of each inode bytes 64 to 99 |
| CopiedTree.PathLengthIs | tools/mkfs.py:409-412 | the length of a path is that of its names with a slash in front of each |
| GgufCursor.Number | tools/gguf.c:83-92 | the cursor moves forward and stays inside; once bad it stays bad and still |
| GgufCursor.Str | tools/gguf.c:97-105 | the same for strings |
| GgufCursor.Skip | tools/gguf.c:110-150 | the same for skipping any value |
| GgufCursor.Cursor.SkipValue | tools/gguf.c:110-150 | the method moves the cursor as the function says, for every type number |
| GgufCursor.JumpCheck | tools/gguf.c:133-134 | the division guard says exactly that the array's bytes are there |
| GgufCursor.SkipAt | tools/gguf.c:110-150 | skipping an encoded value of any kind advances by exactly its encoded length and records its number, string or count |
| GgufCursor.SkipRefuses | tools/gguf.c:118-149 | unknown value types and arrays of arrays are refused |
| GgufFile.ReadTables | tools/gguf.c:164-219 | the parse loops compute the tables or refuse when bytes run out |
| GgufFile.ParseBack | tools/gguf.c:164-219 | for every well-formed file all keys and tensor records are recovered in step, and parsing stops exactly where the tables end |
| GgufFile.HeadIs | tools/gguf.c:164-183 | the header is accepted if and only if it is whole, says GGUF in version 2 or 3 and names at most a million tensors and a hundred thousand keys |
| GgufFile.TensorRefused | tools/gguf.c:206-207 | a tensor record is refused unless it has one to four dimensions |
| GgufFile.AlignmentIs | tools/gguf.c:220-222 | the alignment is 32 without a general.alignment key and otherwise the low 32 bits of the last one |
| GgufFile.StorageIs | tools/gguf.c:240-256 | the bytes of a tensor by type number, and exactly which types and shapes are refused |
| GgufFile.OneBitIsPower | tools/gguf.c:223-223 | the alignment test holds exactly for powers of two |
| GgufFile.Open | tools/gguf.c:152-268 | succeeds if and only if the tables parse, the alignment passes its test and every tensor has a known type and shape and passes the bound check, sizes and sums wrapping at 2^64 as in the code |
| GgufMemory.GetInside | tools/gguf.c:359-374 | if neither size nor sum of an accepted tensor reaches 2^64, every element is read inside its own range of the file |
| GgufMemory.TouchedIs | tools/gguf.c:359-374 | the place of every element: number idx, or byte j behind the two scale bytes of its 34-byte block |
| GgufMemory.InsideFile | tools/gguf.c:240-264 | all elements of an accepted tensor are read inside the file if and only if there are none or its bytes, from their start modulo 2^64, do not run up to 2^64 |
| GgufMemory.InsidePayload | tools/gguf.c:240-264 | all elements of an accepted tensor are read in the payload behind the tables if and only if there are none or data0 + off + size stays below 2^64 |
| GgufMemory.OpenedInside | tools/gguf.c:152-268 | both for every tensor of every file that opens |
| GgufMemory.SizeWraps | tools/gguf.c:240-264 | a file that opens with a tensor of 2^62 floats, whose element 2^40 is read behind the file |
| GgufMemory.SumWraps | tools/gguf.c:258-258 | a file that opens with a tensor that starts in front of the mapping |
| GgufMemory.OffsetWraps | tools/gguf.c:258-264 | a file that opens with a tensor read from the tables |
| GgufMemory.LanesApart | tools/gguf.c:359-374 | different quantised elements use different bytes of a tensor, and a block of 32 never straddles a row |
| QtrleRuns.RowOps | tools/genlegacy.py:725-757 | the operations partition the row's groups in order, each a whole run of two or more equal groups or all the lone groups between two runs, with lengths that are neither 0 nor -1 on the wire; the assertions fail if and only if some stretch exceeds 127 groups |
| QtrleFrame.UnpackPack | tools/genlegacy.py:681-715 | unpacking a packed group gives its pixels cut to their depth, at 1, 2, 4 and 8 bits |
| QtrleFrame.UnpackByte | c/lib/video/legacy_qtrle.c:139-210 | the pixels of one byte at each depth: whole, nibbles, pairs or bits, the highest first |
| QtrleFrame.GroupsIs | tools/genlegacy.py:678-678 | pixels and bytes of a group at each depth |
| QtrleFrame.OpBack | tools/genlegacy.py:778-789 | the decoder turns one operation's bytes into the groups it covers |
| QtrleFrame.FrameBack | c/lib/video/legacy_qtrle.c:158-259 | expanding a row-major frame paints every row where it belongs |
| QtrleFrame.EncodeFrame | tools/genlegacy.py:778-789 | refused exactly when a row has partial groups or too long a stretch; otherwise decoding over any frame of the right size gives back exactly the rows |
| AexHeader.PaddedLength | tools/mkaex.py:283-288 | the pad record brings the header exactly to the target page, so the internal check never fails |
| AexHeader.BuildHeader | tools/mkaex.py:283-291 | the header is a whole number of 4096-byte pages, refused exactly when it exceeds 16384 bytes |
| AexHeader.WalkBack | tools/mkaex.py:154-156 | the loader's walk returns every record in order |
| AexHeader.HeaderBack | tools/mkaex.py:277-291 | walking the built header returns the records and then exactly one APAD record of zeros |
| ElfImage.MakeSegments | tools/mkaex.py:351-359 | text at the base, then rodata if any, then data with bss if either, with their permissions and sizes, each on the first page behind the one before |
| ElfImage.LaidOutFacts | tools/mkaex.py:351-359 | that layout is unique, its segments are disjoint and in address order, and all are page-aligned except the text of an unaligned base |
| ElfImage.PlaceBlobs | tools/mkaex.py:385-390 | every blob stands at its file offset and the headers at the front |
| ElfImage.EmitElf | tools/mkaex.py:350-390 | for every base, unless a value does not fit its field: the ELF header is as stated byte by byte, each segment has a PT_LOAD header with its permissions, address and sizes, loading through it gives the segment's bytes followed by zeros, the last header is the stack's, and offsets are congruent to addresses modulo the page size, the text's exactly for a page-aligned base |
| ElfImage.OffsetsTight | tools/mkaex.py:366-370 | the blobs start at 4096, each on the first page boundary behind the one before |
| TokenText.EscInjective | tools/gen_html5lib_tok.py:70-77 | escaping is injective |
| TokenLines.EscIs | tools/gen_html5lib_tok.py:70-77 | one byte: separators, control characters and everything from 127 on as % and two upper-case digits, the rest unchanged |
| TokenLines.EscAppend | tools/gen_html5lib_tok.py:70-77 | a text is escaped byte by byte |
| TokenLines.LineIs | tools/gen_html5lib_tok.py:86-117 | the line of each kind of token, byte by byte |
| TokenLines.LinesIs | tools/gen_html5lib_tok.py:121-122 | every line ends in a line feed |
| TokenLines.AttrsIs | tools/gen_html5lib_tok.py:110-112 | key=value pairs separated by commas |
| TokenLines.LessIs | tools/gen_html5lib_tok.py:110-112 | attributes are ordered by the first differing byte of their keys |
| TokenLines.CoalesceRun | tools/gen_html5lib_tok.py:83-97 | a run of character tokens becomes one with all their text |
| TokenLines.CoalesceSplit | tools/gen_html5lib_tok.py:83-97 | any other token stays and separates what is joined |
| TokenText.AttrsAsMap | tools/gen_html5lib_tok.py:110-113 | the attribute text is the same if and only if the attributes are the same map |
| TokenText.LineInjective | tools/gen_html5lib_tok.py:98-117 | two tokens have the same line if and only if they have the same shape |
| TokenText.SerializeInjective | tools/gen_html5lib_tok.py:83-122 | two token lists have the same text if and only if they agree after coalescing characters, taking attributes as maps and not telling a lone-NUL doctype field from an absent one |
| TokenText.NulCollides | tools/gen_html5lib_tok.py:80-104 | the doctype collision |
| TokenText.Serialize | tools/gen_html5lib_tok.py:83-122 | the loop with its pending text produces the lines of the coalesced list |

## Left out

- Picture, sequence and slice headers, the random choices and the DCT coefficient content of the
  interlaced generator; address increments beyond one skipped macroblock; frame-based motion in frame
  pictures.
- The Kraft sum is counted in units of 2^-16 instead of floating point, which is exact for lengths up to
  16.
- File, subprocess, lock and temporary-file handling of every tool; UUID and CRC of a volume are
  parameters of the conversion.
- The native file-system check is not modelled; what the tools rely on from it is the `Layout`
  assumption.
- RepackExact.PreserveIdentities: takes images that satisfy `Layout` on both sides, because the caller
  validates them with the file-system check first.
- FAT16: the mtools path, the GPT wrapper, add_root_file and building the tree from command-line
  options; dates and times are parameters; names are byte strings, so non-ASCII upper-casing that
  changes a name's length is not modelled, and names carry no NUL.
- FatDisk.Build: looks at all names before writing, because a refusal writes no file whatever the order.
- LogitFS names that are not valid UTF-8 raise; surrogates in tokenizer text, which Python refuses to
  encode, are excluded by the character type.
- The search for added tokens is a regular-expression call; its hits are a parameter, required to be in
  order and non-empty.
- copy_tree: builder order of siblings, exclusion patterns, execute bits and resolve are not modelled; a
  path's length counts one slash per component.
- GGUF: the value of a floating-point general.alignment key goes through a parameter, and the
  floating-point conversions of gguf_get are left out.
- QuickTime RLE: the 1-bit framing, the chunk header and the direct-colour depths.
- AEX: the contents of the fixed 64-byte header, signing and the version-1 form.
- HTML tokens: strings are their UTF-8 bytes, on which sorting agrees with sorting the text.
- parse_packed_fields: the spelling of a field list is matched by a regular expression and taken as
  parsed.

# Verified models of the flash image host tools

Dafny models of the tools that build, check and ship flash file system images, with proofs of what those
tools promise. Six components are covered.

- **The erasure code** of the multicast image sender and receiver: a systematic Vandermonde code over GF(2^8).
  The main theorem is that decoding any k different packets of n gives the k source packets back, and that
  it fails for nothing else. On the way: the generated tables form a field, the in-place Gauss-Jordan
  elimination inverts exactly the nonsingular matrices, and any k rows of the encoding matrix are independent.
- **The image receiver**: under losses, repetitions, reordering and failed flash writes, a receiver that finishes
  decodes the sender's image, block by block.
- **The red-black tree** used to find hard links, with its parent pointers in memory: rotations, both
  repair loops, deletion, traversal and replacement. Names of the same file, and no others, get the same number.
- **The squashfs writer and reader**: metadata blocks, the inode table and its references, directories with
  their index, the allocator shared by threads, and the buffer cache.
- **The JFFS2 image writer and summary tool**: layout of nodes in eraseblocks, files cut into nodes, the choice
  of a compressor, the rtime codec, and summaries that the kernel's own scan accepts and reads back.
- **The fakeroot client and daemon**: the protocol over two message queues with clients that may be killed at
  any time, call exec and be interrupted, and the hash table that stands for a map.

Code that changes things in place is modelled as methods on classes and arrays. The thread and process
protocols are state machines over single accesses and critical sections, and the theorems are about every run.
`dafny verify dfyconfig.toml` checks everything.

## What does not hold

- `invert_vdm` does not compute the newest coefficient of the product completely. Its result is the inverse if and
  only if there are at most two points or one of the first two points is 0 (`Vandermonde.InverseIffNothingDropped`,
  and `Vandermonde.WrongWhenDropped` for the failing family). `fec_new` always starts with the point 0.
- `invert_mat` has three error branches, at lines 453-456, 480-483 and 515-518 of fec.c, that are never taken: the asserts
  in `MatrixInverse.FindInRow`, `MatrixInverse.ScalePivotRow` and `MatrixInverse.Unscramble` stand where they would be.
- `flush_buffers` of sumtool tells a block with nothing but a cleanmarker by its length alone. A last block of just
  that length is not written: `SumTool.SumTool.FlushBuffers` says when, and `SumTool.LastBlockLost` gives an input.
  A last block that is not nearly full goes out without a summary.
- `pad_block_if_less_than` of sumtool subtracts in unsigned arithmetic. If the next node, its record and the summary so
  far are together larger than an eraseblock, the block is not closed and the node does not fit (`SummaryRoom.WrapsAround`,
  `SummaryRoom.LargeNotTaken`). `SummaryRoom.RoomIff` says exactly when there is room.
- The summary of a block may say that it begins with a cleanmarker when it begins with a node: the first cleanmarker of the
  input came when the block had nodes (`SumTool.MarkerTooLate`). `SumTool.SumTool.SaysHowItBegins` says exactly when.
- The kernel does not take every summary as it was written: a name is cut at a NUL (`SummaryFormat.NameIsCut`), an empty one
  makes it fail (`SummaryFormat.EmptyNameFails`), and so does one of extended attributes in a kernel built without them
  (`SummaryFormat.XattrFails`). `SummaryFormat.AllAsReadIff` says exactly when.
- A deflator that finds fragments locked gives up the mutex before it adds its fragment to the list of those that
  wait. It may come after the list was emptied (`FragmentAllocator.LeftPending`); `FragmentEnding.ClearIff` says exactly
  when. Then it waits for the next file, and after the last one mksquashfs waits for it for ever
  (`FragmentEnding.WaitsForEver`, and `FragmentEnding.LastFragmentLost` for a run); otherwise it always finishes
  (`FragmentEnding.FinishesInTime`).
- `add_dir` does not count the header when it looks whether a run ends beyond a metadata block, so index entries
  may be up to 8204 bytes apart, not 8192. `DirectoryWriter.WideIff` says exactly when they are more than 8192 apart, and
  `DirectoryWriter.WideGap` builds such a directory.
- The search for repeated packets in `recv_image.c` reads past the array for a packet that a block has not, when the block
  already has more packets than it needs (`ImageReceiver.Receiver.Seen`, `ImageReceiver.PastTheEnd`). Whatever it finds
  there, the packet is discarded, and the model takes both outcomes into account.
- The daemon of fakeroot handles its buffer also after an interrupted `msgrcv`: a question may be answered twice
  (`FakerootRuns.AnsweredTwice`). Nothing it knows changes (`FakeStats.HandledAgain`).
- The tags of fakeroot are not unique: exec starts the serial numbers afresh. Together with an interruption, a client may
  accept an old answer (`FakerootRuns.OldAnswerAccepted`); `FakerootRuns.OwnReplyIff` says exactly when.
- A client of fakeroot does not look at the result of `msgrcv`: interrupted before any reply, it takes its own question for
  the answer (`FakerootRuns.OwnQuestionAccepted`). `FakerootWaits.UnansweredIff` says exactly when, and
  `FakerootRuns.AcceptsOwnAnswer` when that is wrong.

## Model

| member | source | states |
|---|---|---|
| `AlphaOrder.AlphaHasOrder255` | hostTools/mtd-utils-20090606/fec.c:117-136 | with the polynomial for 8 bits, alpha has order exactly 255 |
| `AlphaOrder.ExpSurjective` | hostTools/mtd-utils-20090606/fec.c:146-150 | every nonzero element is a power of alpha, so logarithms exist |
| `AlphaOrder.ExpInjective` | hostTools/mtd-utils-20090606/fec.c:146-150 | and of only one below 255, so logarithms are unique |
| `FieldLaws.MulIsSchoolbook` | hostTools/mtd-utils-20090606/fec.c:180-197 | multiplying by adding logarithms is polynomial multiplication modulo the polynomial |
| `FieldLaws.MulAssoc` | hostTools/mtd-utils-20090606/fec.c:180-197 | multiplication is associative |
| `FieldLaws.MulComm` | hostTools/mtd-utils-20090606/fec.c:180-197 | multiplication is commutative |
| `FieldLaws.MulSumRight` | hostTools/mtd-utils-20090606/fec.c:180-197 | multiplication distributes over xor |
| `FieldLaws.MulInverse` | hostTools/mtd-utils-20090606/fec.c:149-150 | the inverse of every nonzero element is an inverse on both sides |
| `GaloisTables.Modnn` | hostTools/mtd-utils-20090606/fec.c:156-164 | the shift-and-add loop gives x modulo 255 for every x not negative |
| `GaloisTables.Tables.FillInverse` | hostTools/mtd-utils-20090606/fec.c:297-305 | the inverse table holds the field inverse of every element |
| `GaloisTables.Tables.GenerateGf` | hostTools/mtd-utils-20090606/fec.c:245-306 | the power, logarithm and inverse tables are those of the field |
| `GaloisTables.Tables.InitMulTable` | hostTools/mtd-utils-20090606/fec.c:187-197 | the multiplication table is the field product of every pair, zero included |
| `GaloisTables.Tables.InitFec` | hostTools/mtd-utils-20090606/fec.c:605-617 | after initialisation all four tables are right |
| `FlatMatrix.AddMul1` | hostTools/mtd-utils-20090606/fec.c:325-361 | the loop unrolled by sixteen adds c times the source to the destination, for every length, and touches nothing else |
| `FlatMatrix.AddMul` | hostTools/mtd-utils-20090606/fec.c:312-322 | skipping the work for c = 0 changes nothing |
| `FlatMatrix.MatMulFlat` | hostTools/mtd-utils-20090606/fec.c:366-381 | the product of flat matrices is the matrix product |
| `GaussJordan.PivotRepresents` | hostTools/mtd-utils-20090606/fec.c:476-512 | a pivot step keeps the relation between the original system and the matrix overwritten in place |
| `GaussJordan.StuckIsSingular` | hostTools/mtd-utils-20090606/fec.c:437-463 | no pivot left means the original matrix is singular |
| `GaussJordan.SolvedIsInverse` | hostTools/mtd-utils-20090606/fec.c:514-534 | when the relation is solved for the other side, the matrix is the two-sided inverse |
| `MatrixInverse.FindPivot` | hostTools/mtd-utils-20090606/fec.c:433-463 | a nonzero entry in an unused row and column, the diagonal first, or proof that none is left |
| `MatrixInverse.SwapRows` | hostTools/mtd-utils-20090606/fec.c:466-475 | exactly the two rows change places |
| `MatrixInverse.ScalePivotRow` | hostTools/mtd-utils-20090606/fec.c:478-494 | the pivot row solved for the pivot, including the case of a unit pivot |
| `MatrixInverse.EliminateColumn` | hostTools/mtd-utils-20090606/fec.c:495-512 | every other row reduced; nothing is done for a unit pivot row, and that is right |
| `MatrixInverse.PivotRound` | hostTools/mtd-utils-20090606/fec.c:464-512 | one round keeps the representation and uses one more pivot |
| `MatrixInverse.Eliminate` | hostTools/mtd-utils-20090606/fec.c:423-513 | all rounds together solve the system, or the matrix is singular |
| `MatrixInverse.Unscramble` | hostTools/mtd-utils-20090606/fec.c:514-525 | exchanging columns backwards undoes the row exchanges |
| `MatrixInverse.InvertMat` | hostTools/mtd-utils-20090606/fec.c:410-534 | returns 0 if and only if the matrix is nonsingular, and then the result is its inverse |
| `Polynomials.Division` | hostTools/mtd-utils-20090606/fec.c:584-594 | synthetic division by x - p leaves the value at p |
| `Polynomials.TooManyRoots` | hostTools/mtd-utils-20090606/fec.c:649-704 | a polynomial of degree below k with k distinct roots is zero |
| `Vandermonde.VanNonsingular` | hostTools/mtd-utils-20090606/fec.c:536-548 | a Vandermonde matrix with distinct points is nonsingular |
| `Vandermonde.ExactInverse` | hostTools/mtd-utils-20090606/fec.c:584-602 | quotients of the true product, scaled by their value, are the columns of the inverse |
| `Vandermonde.WrongWhenDropped` | hostTools/mtd-utils-20090606/fec.c:577-582 | for three or more points of which neither of the first two is 0, the result is not the inverse |
| `Vandermonde.InverseIffNothingDropped` | hostTools/mtd-utils-20090606/fec.c:577-582 | the result is the inverse if and only if there are at most two points or one of the first two is 0 |
| `VandermondeInverse.Coefficients` | hostTools/mtd-utils-20090606/fec.c:566-582 | the recurrence gives the coefficients of the product of the factors, but for the ones it drops |
| `VandermondeInverse.SyntheticDivision` | hostTools/mtd-utils-20090606/fec.c:585-594 | the quotient by x - p and its value at p |
| `VandermondeInverse.FillColumns` | hostTools/mtd-utils-20090606/fec.c:584-597 | every column of the result is such a quotient, scaled |
| `VandermondeInverse.InvertVdm` | hostTools/mtd-utils-20090606/fec.c:548-602 | the inverse of the Vandermonde matrix if and only if nothing is dropped; what follows the matrix is untouched |
| `Systematic.PointsDistinct` | hostTools/mtd-utils-20090606/fec.c:671-681 | the points 0, 1, alpha, alpha squared and so on are distinct up to 256 of them |
| `Systematic.TopIsIdentity` | hostTools/mtd-utils-20090606/fec.c:683-696 | the first k rows of the encoding matrix are the identity |
| `Systematic.EncodingInterpolates` | hostTools/mtd-utils-20090606/fec.c:671-704 | every packet is the value, at its point, of the polynomial through the source packets |
| `Systematic.AnyRowsNonsingular` | hostTools/mtd-utils-20090606/fec.c:649-704 | any k different rows of the encoding matrix form a nonsingular matrix |
| `Systematic.InverseRecovers` | hostTools/mtd-utils-20090606/fec.c:853-864 | the inverse of the rows received gives the source packets back |
| `ErasureCode.FillVandermonde` | hostTools/mtd-utils-20090606/fec.c:671-681 | the matrix filled in is the Vandermonde matrix of the points |
| `ErasureCode.TopIdentity` | hostTools/mtd-utils-20090606/fec.c:691-696 | the top square becomes the identity and the rest is untouched |
| `ErasureCode.BuildEncoding` | hostTools/mtd-utils-20090606/fec.c:670-697 | the encoding matrix: the first point is 0, so the fast inverse is exact, and the rest follows |
| `ErasureCode.FecNew` | hostTools/mtd-utils-20090606/fec.c:649-704 | fails if and only if k or n exceeds 256 or k exceeds n; else the code has a systematic encoding matrix |
| `ErasureDecode.FecEncode` | hostTools/mtd-utils-20090606/fec.c:711-730 | packet `index` is its row times the source packets, also on the copying branch; an index too large writes nothing |
| `ErasureDecode.Shuffle` | hostTools/mtd-utils-20090606/fec.c:754-787 | a rearrangement that puts source packets in place; fails if and only if a source index comes twice |
| `ErasureDecode.BuildDecodeMatrix` | hostTools/mtd-utils-20090606/fec.c:794-824 | the inverse of the rows received, or null if and only if an index is out of range or the rows are dependent |
| `ErasureDecode.FecDecode` | hostTools/mtd-utils-20090606/fec.c:837-878 | returns 0 if and only if the indices are distinct and below n, and then encoded packets become the source packets, in order |
| `RbShape.PlugBalanced` | hostTools/mtd-utils-20090606/rbtree.h:96-130 | a balanced subtree in a balanced context is a red-black tree |
| `RbRotate.RotationInOrder` | hostTools/mtd-utils-20090606/rbtree.c:26-70 | rotations keep the in-order sequence |
| `RbRotate.RotateLeft` | hostTools/mtd-utils-20090606/rbtree.c:26-47 | the links in memory, parents included, are those of the rotated tree |
| `RbRotate.RotateRight` | hostTools/mtd-utils-20090606/rbtree.c:49-70 | the mirror image |
| `RbInsert.RbInsertColor` | hostTools/mtd-utils-20090606/rbtree.c:72-135 | from a red node with possibly a red parent to a red-black tree with the same in-order sequence; the loop ends |
| `RbDeficit.SiblingExists` | hostTools/mtd-utils-20090606/rbtree.c:140-180 | where one black node is missing the sibling is never null |
| `RbEraseColor.RbEraseColor` | hostTools/mtd-utils-20090606/rbtree.c:137-221 | from one black node missing to a red-black tree with the same in-order sequence; the loop ends |
| `RbErase.RbErase` | hostTools/mtd-utils-20090606/rbtree.c:223-288 | a red-black tree again, whose in-order sequence is the old one without exactly that node |
| `RbTraverse.RbFirst` | hostTools/mtd-utils-20090606/rbtree.c:293-303 | the first node in order, null for an empty tree |
| `RbTraverse.RbNext` | hostTools/mtd-utils-20090606/rbtree.c:317-343 | the next node in order, null after the last |
| `RbTraverse.RbReplaceNode` | hostTools/mtd-utils-20090606/rbtree.c:369-390 | the new node takes the place of the old in order and colour |
| `Hardlinks.RbLinkNode` | hostTools/mtd-utils-20090606/rbtree.h:159-166 | a red leaf at the place found |
| `Hardlinks.HardlinkTree.Search` | hostTools/mtd-utils-20090606/mkfs.jffs2.c:118-137 | a node with this key, or the one place where it can go; larger keys are to the left |
| `Hardlinks.HardlinkTree.Insert` | hostTools/mtd-utils-20090606/mkfs.jffs2.c:138-139 | one node more, the keys still in descending order, still a red-black tree |
| `Hardlinks.HardlinkTree.FindHardlink` | hostTools/mtd-utils-20090606/mkfs.jffs2.c:116-141 | the inode number of a known file; an unknown one is entered and 0 returned |
| `Hardlinks.HardlinkTree.NumberFile` | hostTools/mtd-utils-20090606/mkfs.jffs2.c:1319-1330 | a file seen before under another name keeps its number, any other gets the next one unless it is skipped as too large, and no number given before changes |
| `Hardlinks.HardlinkTree.NumberFiles` | hostTools/mtd-utils-20090606/mkfs.jffs2.c:1319-1330 | over any list of names, two get the same inode number if and only if they are names of the same file, and none if and only if that file is skipped; numbers are given in turn, after those already used |
| `Rtime.CodedRight` | hostTools/mtd-utils-20090606/compr_rtime.c:35-52 | the code of any data decodes to the part it stands for, keeps to the room if there is any for a pair, stops early only for lack of it, and every run in it is as long as it can be |
| `Rtime.RunIsLongest` | hostTools/mtd-utils-20090606/compr_rtime.c:44-49 | a run ends only at the limit, at the end of the data, or before a byte that differs |
| `Rtime.PositionsAre` | hostTools/mtd-utils-20090606/compr_rtime.c:41-42 | the table holds the position after the last pair that began with a value, or 0 |
| `Rtime.CopiedRepeats` | hostTools/mtd-utils-20090606/compr_rtime.c:87-91 | every copied byte is the one as far behind the start of the copy |
| `Rtime.CompressPair` | hostTools/mtd-utils-20090606/compr_rtime.c:35-52 | one turn of the loop writes the next pair of that code |
| `Rtime.Compress` | hostTools/mtd-utils-20090606/compr_rtime.c:26-63 | what is written is the code of the input; it decodes to a prefix of it; every run in it is as long as eight bits, the data and the bytes allow; success if and only if it is shorter; stops early only for lack of room |
| `Rtime.CopyBytewise` | hostTools/mtd-utils-20090606/compr_rtime.c:87-91 | the overlapping copy, byte by byte |
| `Rtime.CopyBlock` | hostTools/mtd-utils-20090606/compr_rtime.c:92-95 | the block copy gives the same |
| `Rtime.Decompress` | hostTools/mtd-utils-20090606/compr_rtime.c:66-99 | the bytes the code stands for |
| `Rtime.RoundTrip` | hostTools/mtd-utils-20090606/compr_rtime.c:26-99 | decompressing what was compressed gives back that part of the input; it is all of it unless the room ran out, and success means it became shorter |
| `RtimeCompressor.Attempt` | hostTools/mtd-utils-20090606/compr_rtime.c:26-63 | the compressor as the choice sees it: the code, or a failure |
| `RtimeCompressor.Restore` | hostTools/mtd-utils-20090606/compr_rtime.c:66-99 | its decompressor |
| `RtimeCompressor.RtimeSound` | hostTools/mtd-utils-20090606/compr_rtime.c:102-109 | rtime meets all that the choice of compressors and the file writer assume of a compressor, for pages of up to 32767 bytes |
| `Compressors.NextChoice` | hostTools/mtd-utils-20090606/compr.c:168-193 | in the two size modes one more compressor moves the choice exactly when the choice so far is no longer right |
| `Compressors.ByPriority` | hostTools/mtd-utils-20090606/compr.c:226-259 | the first compressor that succeeds |
| `Compressors.BySize` | hostTools/mtd-utils-20090606/compr.c:260-321 | the first with the smallest result; favouring LZO, LZO unless another result is smaller than 80 percent of it; the length left is that of the last attempt, or the whole room if it failed |
| `Compressors.Jffs2Compress` | hostTools/mtd-utils-20090606/compr.c:213-336 | the result is what the chosen compressor made, or the data as they are if and only if no compressor qualifies; at least one byte is used up, the room is kept, and the bytes decode to what was used up |
| `Compressors.ChoiceUnique` | hostTools/mtd-utils-20090606/compr.c:168-193 | in the two size modes there is never more than one right choice |
| `Compressors.LastLengthIs` | hostTools/mtd-utils-20090606/compr.c:260-321 | the length left is that of the last enabled compressor's result, or the whole room if that failed or there is none |
| `JffsImage.Visit` | hostTools/mtd-utils-20090606/mkfs.jffs2.c:1543-1633 | one turn of the walk steps over exactly one node or one empty word |
| `JffsImage.ProcessBuffer` | hostTools/mtd-utils-20090606/mkfs.jffs2.c:1534-1635 | in one eraseblock the walk meets all nodes and nothing else |
| `JffsImage.ParseImage` | hostTools/mtd-utils-20090606/mkfs.jffs2.c:1637-1657 | over the whole image too, and the inode number ends up the largest met, or what it was |
| `JffsWriter.JffsWriter.PadBlock` | hostTools/mtd-utils-20090606/mkfs.jffs2.c:739-745 | empty words up to the end of the eraseblock, and not one more |
| `JffsWriter.JffsWriter.PadBlockIfLessThan` | hostTools/mtd-utils-20090606/mkfs.jffs2.c:767-786 | afterwards there is room in this eraseblock, behind its cleanmarker; the rest of an eraseblock is given up if and only if the node does not fit into it |
| `JffsWriter.JffsWriter.WriteNode` | hostTools/mtd-utils-20090606/mkfs.jffs2.c:814-816 | the image grows by exactly that node, laid out as the flash needs it |
| `JffsWriter.JffsWriter.Placement` | hostTools/mtd-utils-20090606/mkfs.jffs2.c:739-786 | every node is word-aligned, inside one eraseblock, and that block begins with its cleanmarker |
| `JffsWriter.JffsWriter.Rescan` | hostTools/mtd-utils-20090606/mkfs.jffs2.c:1637-1657 | parsing the image written meets all its nodes, in order |
| `JffsNodes.InodeFields` | hostTools/mtd-utils-20090606/mkfs.jffs2.c:896-905 | the fields and all checksums read from an inode node are those put in; without data the data checksum is 0 |
| `JffsNodes.MetaFields` | hostTools/mtd-utils-20090606/mkfs.jffs2.c:855-862 | mode, owner, group, size and times are found where the kernel looks for them |
| `JffsNodes.DirentFields` | hostTools/mtd-utils-20090606/mkfs.jffs2.c:795-811 | every field and both checksums of a directory entry |
| `JffsFiles.WriteDirent` | hostTools/mtd-utils-20090606/mkfs.jffs2.c:788-817 | one directory entry node more, and before it only what it takes to place it |
| `JffsFiles.WritePart` | hostTools/mtd-utils-20090606/mkfs.jffs2.c:871-922 | one node more, with the file's mode, owner, size and times and right checksums, that decodes to the next bytes of the file, at least one; it is placed where there is room for the least data and holds what the compressors make of the page for the room there |
| `JffsFiles.WriteParts` | hostTools/mtd-utils-20090606/mkfs.jffs2.c:864-923 | the nodes tile the file from start to end, numbered from 1, each with the metadata and right checksums, placed behind the one before it and with as much as fits of what is left of its page; the loops end |
| `JffsFiles.WriteRegularFile` | hostTools/mtd-utils-20090606/mkfs.jffs2.c:819-942 | a directory entry under a new inode number, then nodes that carry the whole file, each with its mode, owner, size and times and right checksums; one node for an empty file; a file too large is skipped |
| `SummaryFormat.Summarize` | hostTools/mtd-utils-20090606/sumtool.c:618-686 | a valid record of the node: its type, offset, whole length, version, inode numbers or attribute id and, for a directory entry, its type and name |
| `NodeRecords.DirentRecord` | hostTools/mtd-utils-20090606/sumtool.c:637-655 | the record of a directory entry as mkfs.jffs2 writes it has its parent, inode number, version, type and name |
| `NodeRecords.DataRecord` | hostTools/mtd-utils-20090606/sumtool.c:619-635 | the record of a data node has its inode number, version and length |
| `SummaryFormat.AllAsReadIff` | kernel/linux-3.4rt/fs/jffs2/summary.c:445-457 | the kernel takes all records exactly as written if and only if every name is non-empty and without NUL, and it knows extended attributes or there are none; it fails with EIO if and only if a name is empty or begins with NUL, or there are some that it does not know |
| `SummaryFormat.NameIsCut` | kernel/linux-3.4rt/fs/jffs2/summary.c:445-464 | a name with a NUL inside, which is cut |
| `SummaryFormat.EmptyNameFails` | kernel/linux-3.4rt/fs/jffs2/summary.c:445-451 | an empty name, for which the kernel fails |
| `SummaryFormat.XattrFails` | kernel/linux-3.4rt/fs/jffs2/summary.c:549-553 | a record of extended attributes, for which a kernel built without them fails |
| `SummaryFormat.ReadRecord` | kernel/linux-3.4rt/fs/jffs2/summary.c:397-567 | the kernel, built with extended attributes or without, reads back each record as it was encoded, its name cut at the first NUL, or fails for a name without length or a type it does not know |
| `SummaryFormat.ReadRecords` | kernel/linux-3.4rt/fs/jffs2/summary.c:386-569 | and all of them, in order, up to the first that fails |
| `SummaryNode.ScanSummary` | kernel/linux-3.4rt/fs/jffs2/summary.c:572-640 | the kernel finds the summary by the marker in the last bytes, all lengths and checksums agree, it reads what was said of the cleanmarker, and takes the records written as it takes names |
| `SummaryNode.HeaderRead` | hostTools/mtd-utils-20090606/sumtool.c:392-406 | every field of the summary header is where the kernel looks for it |
| `SummaryMarks.CleanmarkerFields` | hostTools/mtd-utils-20090606/sumtool.c:166-172 | a cleanmarker has its magic number, type, length and checksum |
| `SumTool.SumTool.TakeRecords` | hostTools/mtd-utils-20090606/sumtool.c:406-481 | the list is written out from its head |
| `SumTool.SumTool.DumpSumRecords` | hostTools/mtd-utils-20090606/sumtool.c:365-496 | a block with records becomes exactly one eraseblock, with summary, padding and marker; one without is left alone |
| `SumTool.SumTool.CloseBlock` | hostTools/mtd-utils-20090606/sumtool.c:530-533 | the block is written and no node is lost |
| `SummaryRoom.RoomIff` | hostTools/mtd-utils-20090606/sumtool.c:524-542 | after pad_block_if_less_than there is room for the node, its record and the summary if and only if a new block holds them alone, or the old one is continued and the subtraction did not go below zero |
| `SummaryRoom.ClosesIff` | hostTools/mtd-utils-20090606/sumtool.c:526-533 | where nothing goes below zero, a block is closed if and only if the node and the padded sum do not fit into what is left |
| `SummaryRoom.RoomForDataIff` | hostTools/mtd-utils-20090606/sumtool.c:550-554 | the test for a nearly full last block: there is room if and only if a data node of 256 bytes fits beside the padded summary |
| `SummaryRoom.WrapsAround` | hostTools/mtd-utils-20090606/sumtool.c:526-530 | where the subtraction goes below zero the block is not closed although there is no room in it |
| `SummaryRoom.HalvesAreTaken` | hostTools/mtd-utils-20090606/sumtool.c:524-542 | nodes of up to about half an eraseblock with their records always find room |
| `SummaryRoom.LargeNotTaken` | hostTools/mtd-utils-20090606/sumtool.c:526-530 | an input, in eraseblocks of 8 KiB, on which the subtraction goes below zero |
| `SumTool.SumTool.PadBlockIfLessThan` | hostTools/mtd-utils-20090606/sumtool.c:524-542 | the block is closed, or not, with no node lost; there is room afterwards if and only if that condition held before |
| `SumTool.SumTool.WriteNode` | hostTools/mtd-utils-20090606/sumtool.c:688-719 | the node is stored on a word boundary with its record; every block written is closed; all nodes are there, in order; the new level of the block and how it begins |
| `SumTool.SumTool.WriteNodes` | hostTools/mtd-utils-20090606/sumtool.c:721-917 | the same for any list of nodes that find room one after the other |
| `SumTool.SumTool.FlushBuffers` | hostTools/mtd-utils-20090606/sumtool.c:544-580 | the last block gets a summary if and only if no data node of 256 bytes fits beside it any more, and is not written at all if and only if its length looks like an empty block |
| `SumTool.LastBlockLost` | hostTools/mtd-utils-20090606/sumtool.c:547-548 | an input whose last block is never written |
| `SumTool.SumTool.ScanWritten` | kernel/linux-3.4rt/fs/jffs2/summary.c:572-640 | for every closed block the kernel gets one record for each node, with the node at its offset, exactly as written if and only if it knows their types and all names in directory entries are names; and what the summary says of the cleanmarker |
| `SumTool.SumTool.FoundCleanmarker` | hostTools/mtd-utils-20090606/sumtool.c:875-891 | the first cleanmarker of the input switches cleanmarkers on with its size; the block being filled is late if and only if it has nodes then |
| `SumTool.SumTool.SaysHowItBegins` | hostTools/mtd-utils-20090606/sumtool.c:400-404 | what the summary of a closed block says of its cleanmarker is how the block begins if and only if the block is not late; at most one is |
| `SumTool.MarkerTooLate` | hostTools/mtd-utils-20090606/sumtool.c:400-404 | an input with a block that begins with a node and whose summary says it begins with a cleanmarker |
| `ReceivedBlocks.Buffered` | hostTools/mtd-utils-20090606/recv_image.c:278-282 | a packet that fits the write buffer |
| `ReceivedBlocks.FlushedOut` | hostTools/mtd-utils-20090606/recv_image.c:283-343 | a packet that fills it: flash and buffer together are the packets, and the eraseblock is not overrun |
| `ReceivedBlocks.Complete` | hostTools/mtd-utils-20090606/recv_image.c:345-350 | a complete block has flushed exactly one eraseblock |
| `ReceivedBlocks.PacketReadsBack` | hostTools/mtd-utils-20090606/recv_image.c:357-379 | read back with the rest of its buffer, each packet is where the decoder looks for it |
| `ReceivedBlocks.Decodable` | hostTools/mtd-utils-20090606/recv_image.c:381-386 | the decoder gets k different packets, and can fail only for a number that was never sent |
| `ImageReceiver.Receiver.constructor` | hostTools/mtd-utils-20090606/recv_image.c:173-215 | the blocks are empty and lie apart, each at the first good eraseblock behind the one before it |
| `ImageReceiver.FirstGoodIs` | hostTools/mtd-utils-20090606/recv_image.c:203-208 | that eraseblock is not bad, and every one passed over is |
| `ImageReceiver.Receiver.SkipBad` | hostTools/mtd-utils-20090606/recv_image.c:316-327 | the loop finds it, or fails if and only if it is beyond the end of the flash |
| `ImageReceiver.Receiver.Seen` | hostTools/mtd-utils-20090606/recv_image.c:228-238 | finds a packet number the block has; it reads past the array if and only if the block has more than enough and not this one |
| `ImageReceiver.Receiver.PutInBuffer` | hostTools/mtd-utils-20090606/recv_image.c:278-282 | one packet more, nothing written |
| `ImageReceiver.Receiver.PutAndFlush` | hostTools/mtd-utils-20090606/recv_image.c:283-343 | one packet more, one buffer written, other blocks undisturbed |
| `ImageReceiver.Receiver.StartAgain` | hostTools/mtd-utils-20090606/recv_image.c:293-338 | after a failed write the old eraseblock is erased and the block is empty at the first good eraseblock not yet used, and the count is right, if and only if there is a device, it was erased and such an eraseblock is left |
| `ImageReceiver.Receiver.Put` | hostTools/mtd-utils-20090606/recv_image.c:255-343 | the packet is stored, as the only one of its block if and only if it filled the write buffer and the write failed |
| `ImageReceiver.Receiver.ReceivePacket` | hostTools/mtd-utils-20090606/recv_image.c:216-350 | gives up if and only if the packet is of another image or no block or its write is lost; repeated, superfluous and damaged packets are counted as such and change nothing else; others are stored; finished only when every block is complete |
| `ImageReceiver.Receiver.LastCheck` | hostTools/mtd-utils-20090606/recv_image.c:345-350 | finished if and only if every block is complete |
| `ImageReceiver.Receiver.Receive` | hostTools/mtd-utils-20090606/recv_image.c:159-351 | for every sequence of packets and device answers: every packet stored arrived for its block with the right checksum, and at the end every block has k different packets and exactly one eraseblock flushed |
| `ImageReceiver.PastTheEnd` | hostTools/mtd-utils-20090606/recv_image.c:228-247 | four packets for a block that needs two: the search reads past the array |
| `ImageDecoding.ReadsBack` | hostTools/mtd-utils-20090606/recv_image.c:357-379 | the buffer read back from flash, cut into packets, is the packets accepted |
| `ImageDecoding.DecodeBlock` | hostTools/mtd-utils-20090606/recv_image.c:357-391 | a complete block decodes unless a number was never sent, and gives the source packets whichever k of them came |
| `ImageDecoding.DecodeImage` | hostTools/mtd-utils-20090606/recv_image.c:356-401 | every block passes its checksum and is the sender's, if its packets are |
| `ImageDecoding.ReceiveImage` | hostTools/mtd-utils-20090606/recv_image.c:159-401 | from arrivals to image: when the receiver has finished and the packets with the right checksum are the sender's, the image is the sender's, whatever was lost, repeated, out of order or written again elsewhere |
| `MetadataBlocks.ReadStored` | hostTools/squashfs_4.0/read_fs.c:79-136 | a block written, compressed or not, is read back |
| `MetadataBlocks.StoredIs` | hostTools/squashfs_4.0/mksquashfs.c:908-919 | a block is no longer than its data or, if packing is on, than they are packed; the bit in the header is set if and only if the data are stored as they are |
| `MetadataBlocks.ReadNth` | hostTools/squashfs_4.0/read_fs.c:79-136 | each block of a table is read where the ones before it end |
| `MetadataStream.Flushed` | hostTools/squashfs_4.0/mksquashfs.c:938-960 | moving a full block to the table keeps all records and references in place |
| `MetadataStream.Appended` | hostTools/squashfs_4.0/mksquashfs.c:718-719 | a reference is the table size and the place in the cache |
| `MetadataStream.ReferenceResolves` | hostTools/squashfs_4.0/mksquashfs.c:933-1102 | reading from the block a reference names and skipping its offset gives exactly the record |
| `InodeTable.InodeTable.GetInode` | hostTools/squashfs_4.0/mksquashfs.c:933-984 | the record is added, its offset is below 8192, blocks written out are full, earlier references stay right |
| `InodeTable.InodeTable.WriteInodes` | hostTools/squashfs_4.0/mksquashfs.c:1067-1102 | everything is in the table, in full blocks but for the last, and nothing is lost |
| `InodeTable.ScanInodeTable` | hostTools/squashfs_4.0/read_fs.c:139-176 | all blocks decompressed and joined, and where the root's block starts |
| `InodeTable.InodeTable.ReadBack` | hostTools/squashfs_4.0/read_fs.c:139-190 | any record is found by the two parts of its reference |
| `DirectoryFormat.NumberBack` | hostTools/squashfs_4.0/read_fs.c:535-538 | a 16-bit difference added to the base gives the inode number |
| `DirectoryWriter.Directory.constructor` | hostTools/squashfs_4.0/mksquashfs.c:1423-1435 | an empty directory |
| `DirectoryWriter.Directory.FillHeader` | hostTools/squashfs_4.0/mksquashfs.c:1500-1504 | the header goes before its entries |
| `DirectoryWriter.Directory.BeginRun` | hostTools/squashfs_4.0/mksquashfs.c:1469-1514 | a new header, and an index entry that points at it if the run ends beyond a block |
| `DirectoryWriter.WideIff` | hostTools/squashfs_4.0/mksquashfs.c:1469-1482 | a directory grows by more than a block between index positions if and only if an entry needs a header for its count, start block or number, and fits into the block without that header only |
| `DirectoryWriter.NewRunIff` | hostTools/squashfs_4.0/mksquashfs.c:1469-1524 | an entry begins a run exactly if there is none, or it has 256 entries, another start block, a number out of 16 bits with a sign, or the entry would end more than 8192 bytes behind the last index position; only the last gives a new index position |
| `DirectoryWriter.TruncatedIs` | hostTools/squashfs_4.0/mksquashfs.c:1447-1451 | the name, or its first 256 bytes |
| `DirectoryWriter.Directory.AddDir` | hostTools/squashfs_4.0/mksquashfs.c:1438-1525 | one entry more at the end, its name cut to 256 bytes; index entries point at headers and are at most 8204 bytes apart, and more than 8192 exactly where that happened |
| `DirectoryWriter.WideGap` | hostTools/squashfs_4.0/mksquashfs.c:1469-1498 | a directory whose index position is 8204 |
| `DirectoryReader.ReadEntry` | hostTools/squashfs_4.0/read_fs.c:524-539 | an entry as it was |
| `DirectoryReader.ReadRun` | hostTools/squashfs_4.0/read_fs.c:515-540 | a header and all its entries |
| `DirectoryReader.ReadRuns` | hostTools/squashfs_4.0/read_fs.c:513-541 | all entries of the directory, in order |
| `DirectoryReader.ReadBlocks` | hostTools/squashfs_4.0/read_fs.c:492-508 | enough blocks, from the one referenced on |
| `DirectoryReader.Readdir` | hostTools/squashfs_4.0/read_fs.c:479-547 | the entries, from the reference |
| `DirectoryTable.AssignStarts` | hostTools/squashfs_4.0/mksquashfs.c:1567-1570 | the index entries that fall into the block being filled get its offset |
| `DirectoryTable.DirectoryTable.AppendDir` | hostTools/squashfs_4.0/mksquashfs.c:1557-1602 | the directory is in the stream, blocks written out are full, and every index entry has the offset of the block that holds its position |
| `DirectoryTable.DirectoryTable.WriteDir` | hostTools/squashfs_4.0/mksquashfs.c:1528-1602 | the same from the directory being built |
| `DirectoryTable.DirectoryTable.WriteDirectories` | hostTools/squashfs_4.0/mksquashfs.c:1105-1142 | everything is in the table, in full blocks but for the last |
| `DirectoryTable.DirectoryTable.ReadBack` | hostTools/squashfs_4.0/read_fs.c:479-547 | names, references, numbers and types of any directory written, in order |
| `DirectoryTable.BlockOfLater` | hostTools/squashfs_4.0/mksquashfs.c:1560-1602 | the offset given to an index entry stays right whatever is written later |
| `DirectoryTable.IndexLeadsToHeader` | hostTools/squashfs_4.0/mksquashfs.c:1560-1602 | from the block an index entry names, its place holds the header of that run and the rest of the directory |
| `FragmentAllocator.MutexKept` | hostTools/squashfs_4.0/mksquashfs.c:1743-1819 | who holds the mutex and whether fragments are locked agree with where the threads are, also in the unlock without a lock at the end |
| `FragmentAllocator.SpaceKept` | hostTools/squashfs_4.0/mksquashfs.c:1743-1819 | every step keeps the extents laid end to end up to bytes |
| `FragmentAllocator.WhereKept` | hostTools/squashfs_4.0/mksquashfs.c:1743-1819 | every step keeps each fragment in exactly one place |
| `FragmentAllocator.RunOk` | hostTools/squashfs_4.0/mksquashfs.c:1743-1819 | so does every run of the main thread and any number of deflators, from the first file to the last wait |
| `FragmentAllocator.ExtentsDisjoint` | hostTools/squashfs_4.0/mksquashfs.c:2436-2474 | extents are disjoint and below bytes |
| `FragmentAllocator.FileContiguous` | hostTools/squashfs_4.0/mksquashfs.c:2710-2810 | the blocks of a kept file follow each other from its start |
| `FragmentAllocator.PlacedOnce` | hostTools/squashfs_4.0/mksquashfs.c:1754-1778 | a placed fragment has one extent, where the table says |
| `FragmentAllocator.PlacedForGood` | hostTools/squashfs_4.0/mksquashfs.c:1754-1778 | and over a whole run is never placed again |
| `FragmentAllocator.RollbackFreesOnlyOwn` | hostTools/squashfs_4.0/mksquashfs.c:2813-2956 | going back for a duplicate or an error gives up that file's extents only |
| `FragmentAllocator.LeftPending` | hostTools/squashfs_4.0/mksquashfs.c:2467-2471 | a run after which fragments are unlocked and one is still pending |
| `FragmentEnding.ClearIff` | hostTools/squashfs_4.0/mksquashfs.c:1754-1778 | when fragments are unlocked none is left pending, then or later, if and only if no deflator is deferring its own |
| `FragmentEnding.ClearUntilLocked` | hostTools/squashfs_4.0/mksquashfs.c:2455-2471 | from then on none becomes pending until fragments are locked again |
| `FragmentEnding.ComesTooLate` | hostTools/squashfs_4.0/mksquashfs.c:1776-1793 | one that is deferred at that time becomes pending with fragments unlocked |
| `FragmentEnding.WaitsForEver` | hostTools/squashfs_4.0/mksquashfs.c:4871-4881 | a fragment that comes after the last unlock_fragments is never placed, and in every run mksquashfs waits for it for ever |
| `FragmentEnding.FinishesInTime` | hostTools/squashfs_4.0/mksquashfs.c:4871-4881 | otherwise every run gets one step nearer the end with each step and can always go on until all fragments are placed |
| `FragmentEnding.StuckOrClear` | hostTools/squashfs_4.0/mksquashfs.c:4875 | which of the two it is depends only on whether a deflator is deferring when that unlock_fragments ends |
| `FragmentEnding.LastFragmentLost` | hostTools/squashfs_4.0/mksquashfs.c:4871-4881 | a run that waits for ever |
| `FragmentAllocator.OutstandingIsSomewhere` | hostTools/squashfs_4.0/mksquashfs.c:1781-1819 | a fragment not placed yet is queued, with a deflator, or pending; the count of them is right |
| `RingList.InsertList` | hostTools/squashfs_4.0/mksquashfs.c:495-506 | the entry becomes the last of the ring |
| `RingList.RemoveList` | hostTools/squashfs_4.0/mksquashfs.c:509-522 | the entry leaves the ring, the others stay in order; nothing happens for one in no list |
| `BufferCache.BufferCache.InsertHash` | hostTools/squashfs_4.0/mksquashfs.c:528-538 | the buffer is the latest of its chain |
| `BufferCache.BufferCache.RemoveHash` | hostTools/squashfs_4.0/mksquashfs.c:541-553 | the buffer is in no chain |
| `BufferCache.BufferCache.CacheLookup` | hostTools/squashfs_4.0/mksquashfs.c:582-606 | the buffer hashed last under the index, or null if and only if none is kept under it |
| `BufferCache.BufferCache.Unlist` | hostTools/squashfs_4.0/mksquashfs.c:600 | the buffer leaves the ring of free buffers, if it is in it |
| `BufferCache.BufferCache.CacheGet` | hostTools/squashfs_4.0/mksquashfs.c:611-668 | the first free buffer, or a new one, for the caller alone; none if and only if all are in use and no more may be made; no other buffer changes |
| `BufferCache.BufferCache.CacheRehash` | hostTools/squashfs_4.0/mksquashfs.c:671-682 | the buffer is now the latest under the new index |
| `BufferCache.BufferCache.CacheBlockPut` | hostTools/squashfs_4.0/mksquashfs.c:685-715 | one user less; without users on the free list if kept, else gone |
| `FakeStats.StatShowsChange` | hostTools/fakeroot/faked.c:603-736 | a status asked for after a request shows what was asked for; everything else is as before: chown leaves mode and device, chmod owner and device, mknod the owner; an unlink that is not of the last link changes nothing |
| `FakeStats.AnswerIs` | hostTools/fakeroot/faked.c:689-714 | what is known, or what the system says with root as the owner unless such files are left alone; always the system's link count |
| `FakeStats.BitsLookedAt` | hostTools/fakeroot/faked.c:603-736 | the type bits, directories, the last link and the id that changes nothing, in plain numbers |
| `FakeStats.SameFile` | hostTools/fakeroot/faked.c:199-210 | two requests are about one file if and only if device, inode number and remote agree |
| `FakeStats.OthersUntouched` | hostTools/fakeroot/faked.c:603-736 | a request about one file changes nothing about another |
| `FakeStats.HandledAgain` | hostTools/fakeroot/faked.c:768-774 | handling what is left in the message buffer once more changes neither what is known nor the buffer |
| `HashBuckets.Appended` | hostTools/fakeroot/faked.c:212-232 | a new record at the end of its chain is one key more |
| `HashBuckets.Overwritten` | hostTools/fakeroot/faked.c:230-231 | a record replaced in place is that key changed |
| `HashBuckets.Erased` | hostTools/fakeroot/faked.c:234-253 | a record taken out is that key gone |
| `HashBuckets.FlatSize` | hostTools/fakeroot/faked.c:273-285 | there are as many records as keys |
| `FakedTable.DataTable.DataFind` | hostTools/fakeroot/faked.c:199-210 | the node of the key, null if and only if there is none |
| `FakedTable.DataTable.DataInsert` | hostTools/fakeroot/faked.c:212-232 | the map with this key set |
| `FakedTable.DataTable.DataErase` | hostTools/fakeroot/faked.c:234-253 | the map without this key; the node behind the erased one is returned |
| `FakedTable.DataTable.DataNodeNext` | hostTools/fakeroot/faked.c:255-271 | the next node in the order of chains |
| `FakedTable.DataTable.Entries` | hostTools/fakeroot/faked.c:492-507 | the walk meets every key exactly once, with what the map says |
| `FakedTable.DataTable.DataSize` | hostTools/fakeroot/faked.c:273-285 | the number of keys |
| `FakedRequests.InsertOrOverwrite` | hostTools/fakeroot/faked.c:580-594 | the map with this key set |
| `FakedRequests.ProcessChown` | hostTools/fakeroot/faked.c:603-644 | the owner and group change unless asked to stay, mode and device stay; unknown files belong to root |
| `FakedRequests.ProcessChmod` | hostTools/fakeroot/faked.c:646-665 | the permissions change and the file type stays |
| `FakedRequests.ProcessMknod` | hostTools/fakeroot/faked.c:667-687 | mode and device change and the owner stays |
| `FakedRequests.ProcessStat` | hostTools/fakeroot/faked.c:689-714 | what the map says, with the link count of the request |
| `FakedRequests.ProcessUnlink` | hostTools/fakeroot/faked.c:719-736 | the file is forgotten with its last link |
| `FakedRequests.ProcessMsg` | hostTools/fakeroot/faked.c:750-756 | each request does to the map and to its buffer what it should, and only a stat is answered |
| `FakedRequests.Serve` | hostTools/fakeroot/faked.c:760-779 | over any sequence of messages and interruptions, what is known is what a plain map knows after the messages, and every reply is the one it would have given to the last message when that came |
| `FakerootProtocol.SemaphoreKept` | hostTools/fakeroot/communicate.c:381-417 | the semaphore is held by exactly the client between taking and giving it back, also when clients are killed |
| `FakerootProtocol.OrderKept` | hostTools/fakeroot/faked.c:760-779 | the daemon handles messages in the order sent and knows exactly what they told it, also when it is interrupted and handles the last one again |
| `FakerootProtocol.RepliesKept` | hostTools/fakeroot/faked.c:689-714 | replies are queued in the order of their questions, and each is the answer from all messages before its question |
| `FakerootProtocol.ClientsKept` | hostTools/fakeroot/communicate.c:518-547 | what a client accepts carries its tag, and answers its own question if and only if no earlier one with that tag was under way |
| `FakerootProtocol.CopiesKept` | hostTools/fakeroot/communicate.c:518-547 | of what a client waits for there is one copy and one more for each time it was answered again, and at least two if an earlier question has its tag |
| `FakerootProtocol.StepOk` | hostTools/fakeroot/communicate.c:381-547 | every step keeps all of this |
| `FakerootProtocol.RunOk` | hostTools/fakeroot/communicate.c:381-547 | so does every run, with kills, exec and interruptions |
| `FakerootRuns.OneInside` | hostTools/fakeroot/communicate.c:381-417 | at most one living client is inside |
| `FakerootRuns.WaitingOnce` | hostTools/fakeroot/communicate.c:518-547 | a waiting client's request or reply is in exactly one place if and only if no interruption repeated it and no earlier question with its tag is under way |
| `FakerootWaits.WaitEnds` | hostTools/fakeroot/communicate.c:530-534 | a wait ends with an interruption, which leaves no answer, or with a reply received, and with no other step |
| `FakerootWaits.InterruptEndsIff` | hostTools/fakeroot/communicate.c:530-534 | an interruption ends it if and only if the question is still in the buffer |
| `FakerootWaits.OwnIff` | hostTools/fakeroot/communicate.c:530-534 | in every run the question is still in the buffer if and only if the client has received nothing since it sent it |
| `FakerootWaits.UnansweredIff` | hostTools/fakeroot/communicate.c:530-534 | in every run a client has taken its own question for the answer if and only if it was interrupted after sending it and before receiving anything |
| `FakerootRuns.WhatIsAccepted` | hostTools/fakeroot/communicate.c:530-536 | in every run: a reply accepted is the right answer to a question with the client's tag; a client takes its own question for the answer under exactly that condition |
| `FakerootRuns.OwnReplyIff` | hostTools/fakeroot/communicate.c:530-534 | in every run, a reply with the client's tag is to its own question if and only if, before it is received, no earlier question with that tag is under way |
| `FakerootRuns.AcceptsOwnAnswer` | hostTools/fakeroot/communicate.c:522-536 | in every run in which a client never called exec, or nobody was interrupted, what it accepts is what a plain map says to its own question after everything sent before it, by any client, if and only if it was not interrupted before receiving anything or the question already said so |
| `FakerootRuns.AcceptsUninterrupted` | hostTools/fakeroot/communicate.c:522-536 | so always for a client that was never interrupted |
| `FakerootRuns.AnsweredTwice` | hostTools/fakeroot/faked.c:768-774 | a run in which an interrupted daemon answers twice under one tag |
| `FakerootRuns.OldAnswerAccepted` | hostTools/fakeroot/communicate.c:520-536 | a run with exec and an interruption in which a client takes an old answer for the new one |
| `FakerootRuns.OwnQuestionAccepted` | hostTools/fakeroot/communicate.c:530-534 | a run in which an interrupted client takes its own question for the answer and sees the real owner |
| `FakerootRuns.StaleReplyDropped` | hostTools/fakeroot/communicate.c:495-516 | the case the source describes: a client is killed, and the next one drops the reply meant for it and accepts its own |

## Left out

- Field sizes other than 8 bits, the flag that makes initialisation happen once, `fec_encode_linear` and the self-test of fec.c.
- ErasureCode.FecNew: takes k of at least 1, because with k = 0 the source writes into a matrix without elements.
- ErasureDecode.FecDecode: takes indices that are not negative, because the source uses them to index arrays without a check.
- `rb_last` and `rb_prev`, the mirror images of `rb_first` and `rb_next`; the packing of parent and colour into one word is two fields.
- Hardlinks.RbLinkNode: the address of a link field is a parent and a side; the entry around a node is a map from nodes to keys and numbers.
- Rtime.Compress: takes at most 32767 bytes, because positions are kept as signed 16-bit numbers, and a buffer for all it writes, because room for less than a pair is no limit in unsigned arithmetic.
- Compressors.Jffs2Compress: takes a single byte of room for a single byte of data only, because that is all mkfs.jffs2 offers.
- Rtime.Decompress: takes code that decodes to exactly the length asked for, because the source checks nothing.
- Compression itself (zlib, LZO, LZMA) and crc32: parameters, with decompression undoing compression where a theorem needs it.
- Byte order other than little-endian.
- Short writes and write errors of the output file in mkfs.jffs2, sumtool and mksquashfs.
- Symbolic links, devices, pipes, extended attributes and the directory recursion of mkfs.jffs2, which write nodes in the same way.
- JffsWriter.JffsWriter.constructor: takes an eraseblock size that is a multiple of 4, because padding aligns to the image and not to the eraseblock.
- JffsFiles.WriteRegularFile: takes an eraseblock with room for a cleanmarker and the smallest data node, because the source computes the space left without a check.
- SumTool.SumTool.WriteNode: takes a node that finds room, by the condition of `SummaryRoom.RoomIff`, because otherwise the block overflows; and lengths whose sums fit 32 bits.
- Parsing of the input image by sumtool, which only skips and checks nodes, and its option for a cleanmarker size.
- Writing the decoded blocks back to flash in `recv_image.c`, and running out of flash while the blocks are first placed.
- ImageReceiver.Receiver.constructor: takes an erase size that is a multiple of the write buffer, because otherwise a complete block leaves part of its eraseblock unwritten.
- Appending to an existing squashfs image, recovery, sparse counts, the search for duplicates and the file table.
- FragmentAllocator.RunOk: the end after two interrupts by the user, which skips the last wait, is no step.
- BufferCache.BufferCache.CacheGet: one turn of its waiting loop, because waiting for another thread to give a buffer back has no counterpart in a sequential method; each operation runs under the cache's mutex.
- BufferCache.BufferCache.CacheLookup: the links within a hash chain are a sequence; those of the free list are links.
- DirectoryWriter.Directory.AddDir: takes names of at least one byte, because the stored length is one less.
- FakerootProtocol.RunOk: process ids are never used again and serial numbers do not wrap, as the comment in the source concedes; an interruption before the daemon's first message, when its buffer holds nothing yet, is no step.
- A request of a fakeroot client that `msgsnd` does not accept; the client then waits for an answer to a question nobody has.
- FakedRequests.Serve: takes a first event that is a message, for the same reason.
- FakedRequests.ProcessMsg: takes the five requests there are, because the source does not say what another number means.
- Saving and loading the daemon's database, and the TCP variant of fakeroot.
- hostTools/jffs2, whose files repeat those of mtd-utils.

# Linked structures, check values, patches and formats of a C code base

The project models and verifies the algorithmic core of a collection of embedded C
programs: the hash table of uthash.h and the lists of utlist.h that ship with the
mosquitto MQTT clients, the circular lists and hlists of list.h, the boot environment
and its CRC in uboot.c, the image check in iburn.c, the binary patcher of bspatch.c, and
the output formats of the MQTT clients.

Code that works in place is modelled in place: elements are objects whose links the
methods assign, buckets and buffers are arrays, and the loops are the loops of the
source.  Each method is proved against a specification on plain values, and the lemmas
are about those specifications.

| file | contents |
|---|---|
| Basics.dfy | options, bytes and small functions the modules share |
| Bits.dfy, Words.dfy | masks, shifts, exclusive or and 32-bit words on natural numbers |
| MachineWords.dfy | the same exclusive or and half on machine words, to work out fixed values |
| StableSort.dfy | the bottom-up merge sort on sequences, and what a stable sort is |
| Element.dfy, Segments.dfy | the element all lists link together; cutting and joining stretches of it |
| ListSort.dfy | the merge sort of the list macros in its three shapes |
| DList.dfy | the doubly linked list with head->prev as its tail |
| Buckets.dfy, UtHash.dfy, HashTables.dfy | bucket chains, the table record with its expansion, and the whole table |
| TableRuns.dfy | runs of table operations against a map and a sequence |
| HashJen.dfy | Jenkins' hash |
| Crc32.dfy, NorImage.dfy | the CRC and the chunked image check |
| BootEnv.dfy, BootPart.dfy | the boot environment as strings, and the edits of its bytes |
| BsPatch.dfy | the patch format and the patch loop |
| LinuxList.dfy, HList.dfy | the rings and hlists of list.h |
| MqttFormat.dfy | the format grammar, its check and its printer |

Three promises do not hold of the code for all inputs; the project keeps the code as it
is, proves exactly when they do, and gives for each an input for which it does not:

* the image check compares the CRC of the payload only for images of at least 64 KiB
  (`NorImage.GoodImageAccepted`, `NorImage.ShortImageFails`); a smaller one is checked
  together with whatever follows it in the first 64 KiB;
* a value written to the boot environment is read back only if its name holds no equals
  sign and is contained in no surviving string, since the reader searches for the name
  anywhere in a string (`BootEnv.ReadsBackWhen`, `BootEnv.HiddenByAnother`);
* a row of settings written at once is the same as writing them one by one only if no
  later name starts an earlier new string (`BootEnv.MultiIsEach`, `BootEnv.SetTwice`).

The comment on zero padding in formatted_print says that the zero of `%-040p` is
ignored; the code sets the padding all the same, and the model follows the code.

## Model

| member | source | states |
|---|---|---|
| `StableSort.SortIsStable` | MQTT 通信/mosquitto-2.0.11/deps/uthash.h:980-1062 | The bottom-up merge sort yields a sorted, stable permutation for every total-preorder comparison. |
| `StableSort.SortIsTheStableSort` | MQTT 通信/mosquitto-2.0.11/deps/utlist.h:111-169 | A sequence is the sort's result if and only if it is a sorted, stable permutation of the input: the three list sorts and the table sort therefore all compute the same thing. |
| `StableSort.SortPermutes` | MQTT 通信/mosquitto-2.0.11/deps/utlist.h:111-169 | For any comparison at all, consistent or not, the result has exactly the elements of the input. |
| `StableSort.RunsAfterPasses` | MQTT 通信/mosquitto-2.0.11/deps/uthash.h:980-1062 | What k passes make of a list is a row of sorted runs of length 2^k, for every total preorder. |
| `StableSort.OnePassMore` | MQTT 通信/mosquitto-2.0.11/deps/uthash.h:989-1059 | One turn of the outer loop takes the list from k passes to k + 1 and the run length from 2^k to 2^(k+1); the loops of all four sorts keep this as their invariant, so after every pass the list is a row of sorted runs. |
| `StableSort.PassDoublesRuns` | MQTT 通信/mosquitto-2.0.11/deps/uthash.h:980-1062 | One pass turns sorted runs of any length into sorted runs of twice that length. |
| `ListSort.LLSort` | MQTT 通信/mosquitto-2.0.11/deps/utlist.h:111-169 | LL_SORT2 terminates and leaves the stable sort of its elements, reached by doubling passes, as a NULL-ended list. |
| `ListSort.DLSort` | MQTT 通信/mosquitto-2.0.11/deps/utlist.h:175-233 | DL_SORT2 terminates and leaves the same sequence, with prev inverse to next and head->prev the last element. |
| `ListSort.CDLSort` | MQTT 通信/mosquitto-2.0.11/deps/utlist.h:238-309 | CDL_SORT2 terminates and leaves the same sequence as a closed ring in both directions. |
| `DList.DList.Prepend` | MQTT 通信/mosquitto-2.0.11/deps/utlist.h:624-634 | The new element comes first; prev, next and head->prev stay right. |
| `DList.DList.Append` | MQTT 通信/mosquitto-2.0.11/deps/utlist.h:639-651 | The new element comes last and becomes head->prev. |
| `DList.DList.Delete` | MQTT 通信/mosquitto-2.0.11/deps/utlist.h:706-723 | Exactly the deleted element leaves the sequence, whether it is alone, first, inner or last. |
| `DList.DList.Concat` | MQTT 通信/mosquitto-2.0.11/deps/utlist.h:688-701 | The second list's elements follow the first's, and head->prev is the second's last. |
| `DList.DList.ReplaceElem` | MQTT 通信/mosquitto-2.0.11/deps/utlist.h:753-777 | The element is exchanged at its place, also when it is the head or the tail or both. |
| `DList.DList.PrependElem` | MQTT 通信/mosquitto-2.0.11/deps/utlist.h:782-798 | Insertion before an element, or at the end for NULL. |
| `DList.DList.AppendElem` | MQTT 通信/mosquitto-2.0.11/deps/utlist.h:803-819 | Insertion behind an element, or at the front for NULL. |
| `DList.DList.LowerBoundElem` | MQTT 通信/mosquitto-2.0.11/deps/utlist.h:672-683 | The last of the leading elements that compare below, or NULL if there are none. |
| `DList.DList.InsertInOrder` | MQTT 通信/mosquitto-2.0.11/deps/utlist.h:656-667 | Insertion behind all leading elements that compare below the new one. |
| `DList.InsertInOrderSorts` | MQTT 通信/mosquitto-2.0.11/deps/utlist.h:656-683 | In-order insertion into a sorted list gives the stable sort of the new element and the list, so the list stays sorted. |
| `DList.Run` | MQTT 通信/mosquitto-2.0.11/deps/utlist.h:624-819 | Any run of these operations, concatenation with a second list included, does to the linked list what the same run does to the plain sequence, and keeps the DL shape. |
| `Bits.MaskIsRemainder` | MQTT 通信/mosquitto-2.0.11/deps/uthash.h:438-441 | hashv & (num_bkts - 1) is the remainder by the number of buckets when that is a power of two. |
| `Buckets.BucketIsRemainder` | MQTT 通信/mosquitto-2.0.11/deps/uthash.h:438-441 | The bucket HASH_TO_BKT selects is the remainder of the hash value by the number of buckets. |
| `Bits.CeilingByBits` | MQTT 通信/mosquitto-2.0.11/deps/uthash.h:936-938 | The shift and mask of the expansion compute items divided by buckets, rounded up. |
| `Buckets.FindInBkt` | MQTT 通信/mosquitto-2.0.11/deps/uthash.h:835-854 | The walk of a chain returns the first element with this hash value and key, or NULL if there is none. |
| `Buckets.DelInBkt` | MQTT 通信/mosquitto-2.0.11/deps/uthash.h:879-892 | Exactly the deleted node leaves the chain; count, head and hh_prev links are right again. |
| `Buckets.PushChain` | MQTT 通信/mosquitto-2.0.11/deps/uthash.h:857-866 | The new node is first in its chain; count and hh_prev links are right. |
| `Buckets.ExpandMultBounds` | MQTT 通信/mosquitto-2.0.11/deps/uthash.h:944-950 | The multiplier the loop leaves in a bucket is positive exactly when its count exceeds the ideal, keeps the count within (expand_mult + 1) * ideal, and is nowhere more than one above what the count needs. |
| `Buckets.SumExcessIsNonIdeal` | MQTT 通信/mosquitto-2.0.11/deps/uthash.h:944-950 | The running count of nonideal items is the sum over all buckets of what exceeds the ideal length. |
| `Buckets.ChainsHoldOrder` | MQTT 通信/mosquitto-2.0.11/deps/uthash.h:523-570 | When every element is in the one chain its hash selects, the chains together hold exactly the elements of the application order. |
| `Buckets.PlacedAfterExpand` | MQTT 通信/mosquitto-2.0.11/deps/uthash.h:923-973 | Redistribution puts every element into the bucket that is the remainder of its hash value by the doubled number of buckets, into no other, and into no chain twice. |
| `UtHash.ExpandBuckets` | MQTT 通信/mosquitto-2.0.11/deps/uthash.h:923-973 | Doubling keeps the items and all links and counts, leaves each item in the bucket that is the remainder of its hash value by the new number of buckets, and leaves the exact ideal length, nonideal count, multipliers and the ineffective-expansion counter that inhibits further doubling. |
| `UtHash.AddToBkt` | MQTT 通信/mosquitto-2.0.11/deps/uthash.h:857-876 | The table invariant is kept, and the buckets double exactly when the count reaches the threshold and expansion is not inhibited. |
| `UtHash.BloomAdd` | MQTT 通信/mosquitto-2.0.11/deps/uthash.h:203-207 | Exactly one bit of the filter becomes set; all others stay. |
| `UtHash.BloomTest` | MQTT 通信/mosquitto-2.0.11/deps/uthash.h:204-210 | The test is nonzero if and only if the bit of this hash value is set. |
| `UtHash.BloomBitIsRemainder` | MQTT 通信/mosquitto-2.0.11/deps/uthash.h:184-210 | The bit of a hash value is its remainder by the number of bits, and the array has just enough bytes for all of them. |
| `HashTables.HashTable.Add` | MQTT 通信/mosquitto-2.0.11/deps/uthash.h:404-423 | Appends to the application order and keeps every link, count, tail, filter bit and placement, across expansion and for an empty table; the bucket count changes only by the doubling rule. |
| `HashTables.HashTable.AddInOrder` | MQTT 通信/mosquitto-2.0.11/deps/uthash.h:358-389 | The same, with the new element before the first that compares above it. |
| `HashTables.HashTable.Find` | MQTT 通信/mosquitto-2.0.11/deps/uthash.h:164-174 | With or without the filter: an element with the key if there is one, NULL exactly if there is none. |
| `HashTables.HashTable.Replace` | MQTT 通信/mosquitto-2.0.11/deps/uthash.h:262-270 | Takes out the element with the key, if any, and appends the new one; hands back the one taken out. |
| `HashTables.HashTable.ReplaceInOrder` | MQTT 通信/mosquitto-2.0.11/deps/uthash.h:252-260 | The same with in-order insertion. |
| `HashTables.HashTable.Delete` | MQTT 通信/mosquitto-2.0.11/deps/uthash.h:458-485 | Exactly that element leaves the order and its chain; the last one leaves an empty table; the bucket count does not change. |
| `HashTables.HashTable.Sort` | MQTT 通信/mosquitto-2.0.11/deps/uthash.h:980-1062 | The application order becomes its stable sort by doubling passes, with prev and tail right; no chain, count or bucket changes. |
| `HashTables.HashTable.Fsck` | MQTT 通信/mosquitto-2.0.11/deps/uthash.h:523-570 | The integrity check succeeds if and only if its conditions hold; it also terminates on tables whose backward links, counts or sums are wrong. |
| `HashTables.HashTable.ValidIsSound` | MQTT 通信/mosquitto-2.0.11/deps/uthash.h:523-570 | Every table the operations can leave passes that check. |
| `HashTables.HashTable.InItsBucket` | MQTT 通信/mosquitto-2.0.11/deps/uthash.h:438-441 | In every table the operations can leave, an element is in the chain that is the remainder of its hash value by the number of buckets, and in no other. |
| `TableRuns.StepCoherent` | MQTT 通信/mosquitto-2.0.11/deps/uthash.h:164-174 | The abstract operations keep the map and the sequence in agreement, one element for a key. |
| `TableRuns.AddInOrderSorts` | MQTT 通信/mosquitto-2.0.11/deps/uthash.h:358-389 | In-order addition to a sorted order gives the stable sort of the order and the new element. |
| `TableRuns.RunOn` | MQTT 通信/mosquitto-2.0.11/deps/uthash.h:857-876 | From any valid table on, a legal run gives the answers and the order of map and sequence; once expansion is inhibited, it stays so and the number of buckets stays until the run takes out an only element. |
| `TableRuns.Run` | MQTT 通信/mosquitto-2.0.11/deps/uthash.h:164-485 | A new table driven through any legal run of adds, in-order adds, replaces, deletes, finds and sorts gives at each step the answer of a plain map, and ends with the order of a plain sequence, for any hash function and any filter size. |
| `HashJen.MixIsBijective` | MQTT 通信/mosquitto-2.0.11/deps/uthash.h:646-657 | HASH_JEN_MIX has a two-sided inverse on triples of 32-bit words. |
| `HashJen.BlockDifferenceShows` | MQTT 通信/mosquitto-2.0.11/deps/uthash.h:659-697 | Keys of one length that differ only within one 12-byte block end in different states. |
| `HashJen.TailDifferenceShows` | MQTT 通信/mosquitto-2.0.11/deps/uthash.h:659-697 | Keys that begin with the same whole blocks and then differ within less than a block, in their bytes or in how many there are, end in different states. |
| `HashJen.TrailingZerosShow` | MQTT 通信/mosquitto-2.0.11/deps/uthash.h:682-695 | Zero bytes added at the end of the last, incomplete block always change the state, since the length is taken in. |
| `HashJen.HashJenMix` | MQTT 通信/mosquitto-2.0.11/deps/uthash.h:646-657 | The nine lines, each on the variables the lines before have changed, compute the mixing step that is proved a bijection. |
| `HashJen.FixedValue` | MQTT 通信/mosquitto-2.0.11/deps/uthash.h:646-697 | The hash value of one key of 23 different bytes, worked out line by line: it depends on every constant, every shift and the place of every byte. |
| `HashJen.HashJen` | MQTT 通信/mosquitto-2.0.11/deps/uthash.h:659-697 | The block loop and the fall-through switch, on 32-bit variables and with the length added between them, compute the recursive hash of the key; that hash takes in the length (`HashJen.TrailingZerosShow`) and has a value fixed byte by byte (`HashJen.FixedValue`). |
| `Crc32.StepInjective` | 串口测试工具/systools/uboot.c:132-136 | The bit step loses nothing: two states with the same successor are the same. |
| `Crc32.StepLinear` | 串口测试工具/systools/uboot.c:132-136 | The bit step commutes with exclusive or. |
| `Crc32.TableByte` | 串口测试工具/systools/uboot.c:152 | One table look-up and one shift are eight bit steps, for every state and byte. |
| `Crc32.PatternStep` | 串口测试工具/systools/uboot.c:123-128 | Each exponent of the list sets its bit of the polynomial's pattern. |
| `Crc32.CrcUnit.Init` | 串口测试工具/systools/uboot.c:116-149 | From the list of exponents the table comes out as eight bit steps of every byte. |
| `Crc32.CrcUnit.Calc` | 串口测试工具/systools/uboot.c:157-175 | The walk unrolled by eight equals the CRC taken bit by bit, with the register inverted before and after, for every buffer and length. |
| `Crc32.CrcUnit.Crc32` | 串口测试工具/systools/uboot.c:177-185 | The same with the table built before and dropped after. |
| `Crc32.CrcComposes` | 串口测试工具/systools/uboot.c:157-175 | The check value of a whole can be taken piece by piece. |
| `Crc32.BurstDetected` | 串口测试工具/systools/uboot.c:121-175 | Two buffers of one length that differ only inside four consecutive bytes never have the same check value. |
| `Crc32.Residue` | 串口测试工具/systools/uboot.c:157-175 | A buffer with its own check value behind it, lowest byte first, has the check value 0x2144df1c, whatever the buffer: this fixes the polynomial and both inversions. |
| `Crc32.LeadingZeroShows` | 串口测试工具/systools/uboot.c:165-174 | A zero byte in front of a buffer always changes its check value. |
| `Crc32.StepsOfOnes` | 串口测试工具/systools/uboot.c:132-136 | Eight and 32 bit steps from a register of ones, worked out on machine words. |
| `MachineWords.XorOfNumbers` | 串口测试工具/systools/uboot.c:152 | Exclusive or as the model defines it on natural numbers is the exclusive or of 32-bit machine words. |
| `MachineWords.HalfOfNumber` | 串口测试工具/systools/uboot.c:134-135 | Shifting a machine word right by one is the half of its number, and its last bit the remainder. |
| `NorImage.VerifyNorImage` | 串口测试工具/systools/iburn.c:67-111 | The loop over the reused 64 KiB buffer returns 0 exactly for what the specification accepts, with every early return and for reads that return any part of what is asked. |
| `NorImage.WhatIsChecked` | 串口测试工具/systools/iburn.c:67-111 | However much the reads return: an image is accepted if and only if the guards pass and the CRC of the buffers one behind the other, from the header to the end of the image but not to less than the first buffer, is ih_dcrc. |
| `NorImage.SeenInFull` | 串口测试工具/systools/iburn.c:92-104 | With full reads the buffers are the file, followed by the bytes a short last read left over from the buffer before. |
| `NorImage.TruncatedImage` | 串口测试工具/systools/iburn.c:93-110 | When the file ends before an image of at least 64 KiB does, exactly when it is accepted all the same: stale bytes of the buffer stand in for the missing ones. |
| `NorImage.LargeImage` | 串口测试工具/systools/iburn.c:83-110 | For an image of at least 64 KiB that is all there, the check compares the one-shot CRC of the payload with ih_dcrc. |
| `NorImage.SmallImage` | 串口测试工具/systools/iburn.c:92-94 | For a smaller one the check value runs on to the end of the buffer. |
| `NorImage.GoodImageAccepted` | 串口测试工具/systools/iburn.c:83-110 | A good image is accepted whatever follows it in the file if and only if it has at least 64 KiB. |
| `NorImage.ShortImageFails` | 串口测试工具/systools/iburn.c:92-94 | A good image of 64 bytes that is refused in some file, under a layout that reads size and CRC from the header. |
| `NorImage.ExampleIsGood` | 串口测试工具/systools/iburn.c:76-81 | Every payload whose CRC is not the reserved value makes a good image under that layout. |
| `NorImage.TrailingByteCounts` | 串口测试工具/systools/iburn.c:92-94 | Two files that hold the same good small image and differ in the last byte of the first 64 KiB are never both accepted. |
| `BootEnv.ImageDetermines` | 串口测试工具/systools/uboot.c:244-257 | The strings of an environment are determined by its bytes. |
| `BootEnv.DeleteMembers` | 串口测试工具/systools/uboot.c:518-531 | Exactly the strings that do not start with a name survive, in order. |
| `BootEnv.ContainsIff` | 串口测试工具/systools/uboot.c:251 | The search of the reader finds a name in a string if and only if the string has it somewhere, with anything before and behind. |
| `BootEnv.WriteWellFormed` | 串口测试工具/systools/uboot.c:515-533 | A write keeps the environment well formed. |
| `BootEnv.ReadsBackWhen` | 串口测试工具/systools/uboot.c:243-258 | Every value under 64 bytes is read back after it was written if and only if the name has no equals sign and no surviving string contains it. |
| `BootEnv.HiddenByAnother` | 串口测试工具/systools/uboot.c:243-248 | With ab=1 in the environment, a value written to b is not read back. |
| `BootEnv.LongValueIsCut` | 串口测试工具/systools/uboot.c:249 | A value of 64 bytes or more comes back as its first 63. |
| `BootEnv.ItemsOfRender` | 串口测试工具/systools/uboot.c:636-648 | Parsing k1=v1;...;kn=vn gives back the settings. |
| `BootEnv.MultiIsEach` | 串口测试工具/systools/uboot.c:601-648 | Writing many settings at once is writing them one after another if and only if no later name starts an earlier new string. |
| `BootEnv.SetTwice` | 串口测试工具/systools/uboot.c:601-648 | a=1;a=2 at once leaves two strings, one after the other only one. |
| `BootEnv.SameBytes` | 串口测试工具/systools/uboot.c:601-648 | The same for the bytes of the data area, where both lists of strings find a zero to end in. |
| `BootEnv.OverHolds` | 串口测试工具/systools/uboot.c:510-533 | After an edit the area holds exactly the new strings if and only if there is a zero behind them: they did not grow, or the byte behind them was zero before. |
| `BootEnv.ZerosStay` | 串口测试工具/systools/uboot.c:510-533 | In an area that is zero behind its strings there always is one, and it stays such an area. |
| `BootPart.ReadUbootCfg` | 串口测试工具/systools/uboot.c:191-264 | The scan of the buffer returns the value of the first string that contains the name, whatever lies behind the last string; NULL for a wrong CRC. |
| `BootPart.WriteUbootCfg` | 串口测试工具/systools/uboot.c:456-557 | The buffer edit deletes and appends as specified over the cleared old strings, whatever lies behind them, and leaves a right CRC; with a wrong CRC nothing is touched. |
| `BootPart.WriteMultiUbootCfg` | 串口测试工具/systools/uboot.c:560-682 | The same for a configuration string, parsed again for every string of the environment. |
| `BootPart.Mentioned` | 串口测试工具/systools/uboot.c:606-623 | The inner loop finds a name that the string starts with if and only if one of the items has it. |
| `BsPatch.OfftinOfOfftout` | 串口测试工具/systools/bspatch.c:42-58 | Reading an encoded length gives it back, for every length of 63 bits and sign. |
| `BsPatch.OfftoutOfOfftin` | 串口测试工具/systools/bspatch.c:42-58 | Eight bytes are the encoding of what they read as, except zero with the sign set. |
| `BsPatch.ReadOfft` | 串口测试工具/systools/bspatch.c:42-58 | The accumulation computes the signed value of the eight bytes, which `BsPatch.OfftinByPlaces` gives byte by byte. |
| `BsPatch.OfftinByPlaces` | 串口测试工具/systools/bspatch.c:42-58 | The eight bytes weigh as powers of 256, the first lowest, and the top bit of the last is the sign. |
| `BsPatch.AddedStep` | 串口测试工具/systools/bspatch.c:167-170 | Each written byte is the diff byte plus the old byte at the same distance from oldpos, modulo 256, inside the old file, and the diff byte itself outside it. |
| `BsPatch.AddingZeros` | 串口测试工具/systools/bspatch.c:167-170 | Zero diff bytes copy the slice of the old file they are added to. |
| `BsPatch.AddingOutside` | 串口测试工具/systools/bspatch.c:167-170 | Diff bytes before or behind the old file are written as they are. |
| `BsPatch.AddedInParts` | 串口测试工具/systools/bspatch.c:167-170 | A range of diff bytes can be cut where it enters or leaves the old file, and its parts added separately. |
| `BsPatch.PatchLoop` | 串口测试工具/systools/bspatch.c:145-189 | The loop over two cursors and three streams computes the specified outcome and ends because each turn takes 24 control bytes; which bytes of the old file it adds is stated by `BsPatch.AddedStep` and `BsPatch.SeeksAndCopies`. |
| `BsPatch.BsPatchMain` | 串口测试工具/systools/bspatch.c:90-189 | Header checks and loop together. |
| `BsPatch.RoundTrip` | 串口测试工具/systools/bspatch.c:82-189 | For any two files and any segmentation of the new one, the encoded patch is accepted and rebuilds the new file. |
| `BsPatch.PatchedIffEncoded` | 串口测试工具/systools/bspatch.c:146-189 | A patch yields a file if and only if it encodes that file: its triples cut the file into diff and extra segments that cover every byte once. |
| `BsPatch.PatchExtends` | 串口测试工具/systools/bspatch.c:146-189 | An accepted run ends with exactly newsize bytes and never rewrites a byte. |
| `BsPatch.EncodeEncodes` | 串口测试工具/systools/bspatch.c:146-189 | What the encoder writes for a segmentation satisfies the relation that accepted patches are characterised by. |
| `BsPatch.SeeksAndCopies` | 串口测试工具/systools/bspatch.c:146-189 | A patch whose diff block is all zeros yields the slices of the old file that its triples seek to, from any position in both files on. |
| `BsPatch.FixedPatch` | 串口测试工具/systools/bspatch.c:90-189 | One whole patch, header and blocks byte by byte, and the file it makes: two added bytes, one copied, a seek backwards, two more. |
| `LinuxList.ListAdd` | 链表操作/list.h:52-55 | The new entry is first; the ring stays closed in both directions. |
| `LinuxList.ListAddTail` | 链表操作/list.h:58-61 | The new entry is last. |
| `LinuxList.ListDel` | 链表操作/list.h:82-87 | The neighbours are joined and the entry poisoned. |
| `LinuxList.ListDelInit` | 链表操作/list.h:109-113 | The neighbours are joined and the entry is an empty list. |
| `LinuxList.ListReplace` | 链表操作/list.h:93-100 | The entry is exchanged at its place. |
| `LinuxList.ListMove` | 链表操作/list.h:115-119 | From its place, on this or another list, to the front; no node is lost. |
| `LinuxList.ListMoveTail` | 链表操作/list.h:121-126 | The same to the end. |
| `LinuxList.ListRotateLeft` | 链表操作/list.h:145-153 | The first entry becomes the last; an empty list stays. |
| `LinuxList.ListCutPosition` | 链表操作/list.h:172-184 | The prefix up to the entry becomes one ring and the rest another, in every branch. |
| `LinuxList.ListSplice` | 链表操作/list.h:200-205 | The entries of one list come first in the other. |
| `LinuxList.ListSpliceTail` | 链表操作/list.h:207-212 | The entries of one list come last in the other. |
| `LinuxList.ListSpliceInit` | 链表操作/list.h:214-221 | As list_splice, and the first list is empty after. |
| `LinuxList.ListSpliceTailInit` | 链表操作/list.h:223-230 | As list_splice_tail, and the first list is empty after. |
| `LinuxList.CutAndSpliceBack` | 链表操作/list.h:160-221 | Cutting a prefix off and splicing it back restores every link of the ring. |
| `LinuxList.Turn` | 链表操作/list.h:19-23 | A ring can be read from any of its nodes on. |
| `HList.HlistAddHead` | 链表操作/list.h:359-367 | The node is first and both pprev are right. |
| `HList.HlistAddBefore` | 链表操作/list.h:370-377 | The node comes before the other, through whichever cell held that one. |
| `HList.HlistAddAfter` | 链表操作/list.h:379-388 | The node comes behind the other. |
| `HList.HlistDelInit` | 链表操作/list.h:351-357 | Exactly that node leaves its list, without the head being known; an unhashed node is left alone. |
| `HList.HlistMoveList` | 链表操作/list.h:400-407 | The whole list is at the new head. |
| `HList.CellsHold` | 链表操作/list.h:335-342 | On linked lists a node is listed if and only if its pprev is set, and then that cell holds the node. |
| `HList.Run` | 链表操作/list.h:335-407 | Over any run of these operations on any number of lists, every list is what the sequences say and every pprev is the address of the cell that holds its node. |
| `MqttFormat.ReadIffWritten` | MQTT 通信/mosquitto-2.0.11/client/client_shared.c:47-183 | A string is read as a row of tokens if and only if it is written from them, so the grammar is unambiguous. |
| `MqttFormat.CheckFormat` | MQTT 通信/mosquitto-2.0.11/client/client_shared.c:47-183 | The check returns 0 if and only if the whole string reads as tokens. |
| `MqttFormat.CheckDirective` | MQTT 通信/mosquitto-2.0.11/client/client_shared.c:55-146 | Flag, width, precision and specifier are taken exactly as the grammar has them, the specifiers by the chain of comparisons. |
| `MqttFormat.SpecifierIffCase` | MQTT 通信/mosquitto-2.0.11/client/sub_client_output.c:458-629 | What the check lets end a directive is what the printer's switch has a case for, and nothing else. |
| `MqttFormat.CheckEscape` | MQTT 通信/mosquitto-2.0.11/client/client_shared.c:162-176 | The switch over escapes accepts exactly those in the table of codes. |
| `MqttFormat.PrintEscape` | MQTT 通信/mosquitto-2.0.11/client/sub_client_output.c:722-755 | An escape writes the one character whose code the table gives: 92, 0, 7, 27, 10, 13, 9 or 11. |
| `MqttFormat.NumberOfDecimal` | MQTT 通信/mosquitto-2.0.11/client/sub_client_output.c:670-687 | Widths and precisions read as the number they are the decimal form of. |
| `MqttFormat.PrintDirective` | MQTT 通信/mosquitto-2.0.11/client/sub_client_output.c:658-696 | For an accepted directive the printer stops at the same specifier, with the alignment, padding, width and precision that were written. |
| `MqttFormat.FormattedPrint` | MQTT 通信/mosquitto-2.0.11/client/sub_client_output.c:646-754 | For an accepted string the printer does one action for each token, at the token's place; an escape alone is written as the character with its code. |
| `MqttFormat.CheckThenPrint` | MQTT 通信/mosquitto-2.0.11/client/sub_client_output.c:646-759 | For every string the check accepts, the printer finds the same tokens at the same places and no directive is dropped; exactly the strings of the grammar are accepted. |
| `MqttFormat.TokenIsRead` | MQTT 通信/mosquitto-2.0.11/client/client_shared.c:47-183 | A token of the grammar is read as what it is, wherever it stands. |

## Left out

- HASH_SELECT: it does not set the tail of the table it fills, so its result does not meet the invariant of the other operations.
- HASH_NONFATAL_OOM, and failing allocations anywhere.
- HASH_CLEAR, HASH_ITER and the iteration macros: they would only add easy members.
- The wrap-around of num_buckets, num_items and insize at 32 bits, and of field widths in format strings at the width of int: these counts are natural numbers here.
- hho, the offset of a handle in its structure: handles and elements are the same references.
- A key is constant and its hash function a parameter; HASH_JEN is the only hash function that is modelled.
- The other hash functions of uthash.h (BER, SAX, FNV, OAT, SFH, MUR).
- HashTables.HashTable.Add: takes any element that is not in the table, also one whose key is there already; only the runs ask for new keys, as the documentation of the macros does.
- The LL_ and CDL_ operations other than the sorts, and the replacements for compilers without decltype.
- LL_SORT2 and its relatives cast through one element type; the casts are not modelled.
- The signedness of char: the low byte that indexes the CRC table is the same either way.
- NorImage.VerifyNorImage: image.h is not part of this model, so the header's layout is a parameter; the int that counts the bytes read does not overflow; a file's contents do not change between reads.
- verify_nand_image, and burning.
- Opening, erasing and writing the flash, and the return values for their failures; bootenv.h is not part of this model, so the size of the data area is a parameter.
- BootPart.WriteUbootCfg: asks that the new strings and their terminators fit into the data area; the code does not check it.
- BootPart.WriteMultiUbootCfg: asks in addition that the string and each formatted setting are shorter than the 512 bytes of the temporary buffer; the caller's string, which strsep cuts into pieces, is taken as a value.
- BootPart.ReadUbootCfg: a string that is found and holds no equals sign is an outcome of its own, where the code reads through a null pointer.
- bzip2: the three blocks of a patch are the decompressed streams, a read of a negative length fails as libbz2 does, and the narrowing of a length to int in that library's interface is not modelled; the patch's length sums do not overflow.
- LinuxList.ListCutPosition: asks that the entry is on the list or the sentinel, but for the empty and one-entry lists where the code looks; the list that takes the prefix is not part of the ring.
- HList.Run: moves a list only to another, empty head; the code would lose what a filled one holds.
- list_replace_init, hlist_del, hlist_add_fake and the iteration macros of list.h.
- MqttFormat.FormattedPrint: says nothing about strings the check refuses, which are never printed; what is written for a value (padding, JSON, time), and the line end, are not modelled.
- MQTT itself, sockets, serial tools, LEDs, and everything else of the repository.

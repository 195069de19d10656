# Verified models of the distribution's tools and runtime headers

This project models the parts of the repository whose correctness rests on long-lived
state, pointer surgery or agreement between two programs, and proves what they promise:

* **The red-black tree** behind the C++ containers (`watcom/h/_rbtree.h`). Nodes are heap
  objects with parent links and colours. A ghost tree says what the links represent; the
  rebalancing loops are proved against functions on that tree and its contexts
  (`RbTheory`, `RbErase`, `RbPosition`), and the pointer code against those functions
  (`RbNodes`, `RbRelink`, `RbDetach`, `RbErasing`, `RbWalk`, `RbCopying`, `RbMemory`,
  `RbContainer`); `RbShape` says that only links and colours matter to them.
* **The SZDD codec** (`tools/szdd.py`). `SzddFormat` says what a stream means over an
  unbounded history, `SzddRoundTrip` and `SzddSearch` prove the round trip and the
  refusals, and `SzddCodec` proves the ring buffer, the inverse index, the encoder's
  prediction of overlapped bytes and both programs against them. `SzddMeaning` says in
  numbers, byte by byte, what a stream spells, and `SzddChoice` which matches and literals
  the encoder writes, from the data alone.
* **The FAT12 image builder** (`tools/build_distribution.py`): `Fat12` for the 12-bit
  entries, `DiskLayout` for what an image consists of and how an independent reader finds
  the files again, `DiskFields` for every field of an image at its place, `DiskBuild` for
  the builder, `DiskNames` for names, `MediaPacking` for the second disk, where both tools
  meet.
* **Sorting, heaps and permutations** (`watcom/h/_algsort.h`, section 25.3 of
  ISO/IEC 14882:2003): `Ranges`, `Permutations`, `PermutationSteps`, `QuickSorting`, `Heaps`.
* **Path canonicalisation** (`src/INC/ERRTST.C` over `src/INC/OWCOMSUB.C`): `DbcsSearch`,
  `PathFold` for segments, `PathText` for the text the loop edits, `PathCanonical` and
  `PathFixed` for when the result is canonical and when it is its own full path,
  `PathRelative` for arguments and current directories, `RootPaths` for the loop.
* **The partition table sort and the free space table** (`src/SELECT/GET_STAT.C`):
  `PartitionTable`, `FreeSpace`.

`dafny verify dfyconfig.toml` checks the whole project.

## What turned out not to hold as documented

* `rootpath` treats the drive letter `\` as a separator, so ".." removes the drive: the
  argument `\:\..` succeeds with an empty path (`PathCanonical.BackslashDrive`). With
  ordinary lead bytes a call gives the canonical path exactly when the drive letter is not a
  backslash, or no ".." reaches above the root, or one reaches two levels above it, which
  fails either way. A set of lead bytes with the colon or the backslash in it, as no DOS code
  page has, hides separators; `PathCanonical.CanonicalExactly` gives the condition on the
  argument for every set and `PathCanonical.LeadExactly` the sets without such failures.
* A full path given to `rootpath` again stays what it is, under every current drive and
  directory, exactly when the argument's drive letter is not a backslash, or no ".." drops
  the colon behind it, or a segment that is a colon ends up in its place
  (`PathFixed.FixedExactly`); `\:\..\A` gives the path `\A\`, which does not
  (`PathFixed.BackslashNotFixed`).
* `sort_part_table` does not return when an unused entry has a larger `end_cyl` than a used
  one: no order of such entries is free of exchanges. Entries are loaded from the boot
  record whether used or not, so this depends on stale bytes only.
  `PartitionTable.EndsExactly` states the exact condition, `PartitionTable.StaleEntry` gives
  the bytes of such a boot record.
* `cylinders_to_mbytes` counts tracks in 16 bits and bytes in 32; the size is right exactly
  when neither count overflows (`FreeSpace.MegabytesExactly`), and 1024 cylinders of 64 heads
  and 63 sectors have a size of zero (`FreeSpace.MegabytesLost`).
* `find_part_free_space` looks for the largest gap starting from a variable that was never
  assigned. The size it reports is that of the first largest gap exactly when that variable
  happens to be less than the gap's cylinders, or the entry it falls back to has the same
  size (`FreeSpace.LargestReported`); `FreeSpace.StrayMaximum` is a disk with 44 free
  megabytes of which none are reported.
* `build_image` makes the image longer than a disk exactly when the volume label is longer
  than eleven characters (`DiskBuild.BuildImage`); `DiskBuild.LongLabel` is such a call.
* `compressed_name` gives back the destination exactly when the destination does not end in
  its first dot (`DiskNames.NameRestored`); "README." is lost (`DiskNames.DotLost`). A
  directory entry pads names with spaces, so a space before the dot is lost as well: the
  name the disk shows gives the destination back exactly when that has no dot, or an
  extension behind the dot and no space before it (`DiskNames.StoredNameShown`); "A .TXT"
  is lost (`DiskNames.SpaceLost`).
* The copy constructor of the tree takes the copy's comparison from a default-constructed
  object. The copy is a valid container exactly when that comparison is a strict weak order
  under which the original's elements stand in order (`RbContainer.RedBlackTree.Copy`); for
  any two values with different keys `RbContainer.FlippedCopy` makes a copy that is not.

## How the sources' terms are rendered

Colour is a field (the source keeps it in the parent pointer's lowest bit, and has the
plain field as its other variant). An iterator is a node, or null for `end()`. Exceptions
and error returns are `Result` or `Option` values. Shifts and masks are written as
arithmetic on bytes. A comparison functor is a function value that is a strict weak order.
The set of DBCS lead bytes is any predicate on bytes. Upper case is a parameter that maps a
character to one or more characters; it is only asked to leave its own results, the dot and
the underscore alone. Emptying a container records every access to a node and every node
given back, with the links it then had. The current drive and the current
directories are parameters of `RootPath`, and what two unassigned variables hold are parameters
of `FindFreeSpace`. Overlapping downward `strcpy` copies from the
front, as the source relies on. A library sort is modelled by its specification.

## Model

| member | source | states |
|---|---|---|
| `RbContainer.RedBlackTree.Insert` | watcom/h/_rbtree.h:1449-1463 | Every invariant is kept. A new node is added exactly when no equivalent key is present, and then the tree becomes the old one with the node in the gap its key belongs to; otherwise nothing changes and the equivalent node is returned. |
| `RbContainer.RedBlackTree.InsertHinted` | watcom/h/_rbtree.h:1479-1541 | For every hint, right or wrong, the new node goes into the gap its key belongs to, or nothing changes and the equivalent node is returned. |
| `RbContainer.RedBlackTree.HintIrrelevant` | watcom/h/_rbtree.h:1479-1541 | The gaps a hinted insert and a plain insert report for equivalent keys are the same one, so the trees the two leave behind, each with a node of its own, have the same shape and colours, and are equal but for that node. |
| `RbShape.MappedInserted` | watcom/h/_rbtree.h:764-868 | Inserting looks at links and colours only: replacing the items of a tree and inserting into a gap can be done in either order. |
| `RbContainer.RedBlackTree.UnbalancedInsert` | watcom/h/_rbtree.h:1368-1434 | The search ends at the one null link of the gap the key belongs to and hangs a red node there, with count and ends kept up to date, or finds the equivalent node. |
| `RbContainer.RedBlackTree.InsertBalanceTransform` | watcom/h/_rbtree.h:764-868 | The pointer loop yields exactly the repaired tree of `InsertFix`, with links, root and nodes agreeing. |
| `RbContainer.RedBlackTree.EraseNode` | watcom/h/_rbtree.h:1009-1128 | Erasing any node keeps every invariant, removes that node only, and leaves the tree `Removed` describes; this includes the node whose predecessor is its own left child. |
| `RbContainer.RedBlackTree.DoubleBlackTransform` | watcom/h/_rbtree.h:1139-1356 | The four-way loop ends and yields exactly the tree of `DoubleBlack`, never reading through a null sibling. |
| `RbContainer.RedBlackTree.EraseKey` | watcom/h/_rbtree.h:991-1000 | One element is erased exactly when an equivalent key is present, and it is that element; otherwise nothing changes. |
| `RbContainer.RedBlackTree.Find` | watcom/h/_rbtree.h:536-556 | The one node with an equivalent key is found, and the end is returned exactly when there is none. |
| `RbContainer.RedBlackTree.LowerBound` | watcom/h/_rbtree.h:593-609 | The result is the position before which all keys are less and from which none is (section 23.1.2 of ISO/IEC 14882:2003). |
| `RbContainer.RedBlackTree.UpperBound` | watcom/h/_rbtree.h:629-646 | The result is the position up to which no key is greater and from which all are. |
| `RbContainer.RedBlackTree.Copy` | watcom/h/_rbtree.h:376-456 | The copy is made of fresh nodes, one for each of the original's in the same shape with the same colours and values, and has its own root, ends and count; it is a valid container exactly when its own comparison is a strict weak order that has the original's elements in order. |
| `RbContainer.FlippedCopyInvalid` | watcom/h/_rbtree.h:376-386 | A comparison the other way round has no container of two elements or more in order. |
| `RbContainer.FlippedCopy` | watcom/h/_rbtree.h:376-386 | For any two values with different keys, inserting both and copying under the comparison the other way round gives a copy that is not valid. |
| `RbCopying.CopyNodes` | watcom/h/_rbtree.h:405-456 | The walk in step copies every node once, ends, leaves the original untouched and finds the copies of the first and last node. |
| `RbCopying.CopiedInOrder` | watcom/h/_rbtree.h:405-456 | The copies stand in the order of their originals. |
| `RbContainer.RedBlackTree.Clear` | watcom/h/_rbtree.h:495-528 | The nodes are given back in the post-order of the old tree, no node is read or written after it was given back and each still has the links it had then, only nodes of the tree are accessed, and the container is empty and valid. |
| `RbMemory.ChildrenFirst` | watcom/h/_rbtree.h:503-526 | In that order every node comes after all nodes of its subtrees. |
| `RbMemory.PostOrderOnce` | watcom/h/_rbtree.h:503-526 | In that order every node comes once. |
| `RbContainer.RedBlackTree.ShallowTree` | watcom/h/_rbtree.h:877-984 | In every valid container the number of elements plus one is at least two to the power of half the height, rounded up. |
| `RbWalk.WalkRight` | watcom/h/_rbtree.h:667-679 | From the i-th node in order the walk leads to the next one, and from the last to the end. |
| `RbWalk.WalkLeft` | watcom/h/_rbtree.h:689-701 | The walk leads to the node before, so it undoes the other walk. |
| `RbContainer.RedBlackTree.VisitForward` | watcom/h/_rbtree.h:199-203 | Stepping right from the first node visits exactly the elements in order, and ends. |
| `RbContainer.RedBlackTree.VisitBackward` | watcom/h/_rbtree.h:205-209 | Stepping left from the last node visits exactly the elements in the opposite order, and ends. |
| `RbTheory.InsertFixRedBlack` | watcom/h/_rbtree.h:764-868 | Whenever the only conflict is at the inserted node, the loop restores root colour, no red below red, and equal black heights. |
| `RbTheory.InsertFixInOrder` | watcom/h/_rbtree.h:764-868 | Recolouring and rotations keep the elements in order. |
| `RbErase.SiblingIsNode` | watcom/h/_rbtree.h:1143-1152 | Where a black is missing, the sibling is never a null link. |
| `RbErase.PassUp` | watcom/h/_rbtree.h:1254-1292 | When both nephews are black and the parent is black, the same problem is left one level up, and the measure falls. |
| `RbErase.RaiseOnce` | watcom/h/_rbtree.h:1293-1354 | A red sibling has two children; raising it turns the parent red, and the measure falls although the node is deeper. |
| `RbErase.DoubleBlackRedBlack` | watcom/h/_rbtree.h:1139-1356 | The loop restores all colour and height rules. |
| `RbErase.DoubleBlackInOrder` | watcom/h/_rbtree.h:1139-1356 | The loop keeps the elements in order. |
| `RbErase.ErasedRedBlack` | watcom/h/_rbtree.h:1009-1128 | Whatever node is erased, by either of the two ways of taking it out, the rest is a red-black tree. |
| `RbErase.ErasedInOrder` | watcom/h/_rbtree.h:1009-1128 | Exactly the erased node is gone from the order. |
| `RbPosition.GapUnique` | watcom/h/_rbtree.h:1479-1541 | Each gap between neighbours owns exactly one null link, so a hint that names the gap leads to where the search would. |
| `RbPosition.InsertedMeaning` | watcom/h/_rbtree.h:1449-1463 | Insertion in a gap gives a red-black tree with the element there and the others in place. |
| `RbPosition.RemovedMeaning` | watcom/h/_rbtree.h:1009-1128 | Removal at an index gives a red-black tree with that element gone and the others in place. |
| `RbPosition.InsertThenRemove` | watcom/h/_rbtree.h:1009-1128 | Removing what was inserted gives back the elements in order. |
| `RbPosition.HeightBound` | watcom/h/_rbtree.h:877-984 | A red-black tree has at least two to the power of half its height, rounded up, less one elements. |
| `SzddCodec.Encode` | tools/szdd.py:17-79 | The ring buffer program produces exactly the stream `Encoded` describes, or refuses; the rows of `SzddChoice` and `SzddMeaning` say what is in that stream. |
| `SzddCodec.Decode` | tools/szdd.py:82-126 | On arbitrary bytes the program ends with exactly what `Expand` makes of them, or with the same error; `SzddMeaning` says what that is. |
| `SzddSearch.RoundTrip` | tools/szdd.py:17-126 | Encoding succeeds exactly for a missing character of one byte and fewer than 2^32 bytes, and decoding then gives back the bytes and the character. |
| `SzddChoice.StreamTokens` | tools/szdd.py:34-79 | A reader of an encoded stream finds the tokens chosen from the data at every place, and no other sequence of tokens is so chosen. |
| `SzddChoice.TokenChosen` | tools/szdd.py:39-69 | At each place the encoder writes a literal exactly when none of the first 256 distances at which the next byte recurs, 4096 first and then from 1 up, repeats three bytes; otherwise a match of the greatest length up to eighteen that one of them repeats, at the index of the first such distance. |
| `SzddChoice.ChosenUnique` | tools/szdd.py:39-69 | That choice leaves nothing open. |
| `SzddChoice.SpacesStream` | tools/szdd.py:39-69 | The stream of n spaces holds one match for every full eighteen of them, at the index it is written to, and at most two tokens more. |
| `SzddChoice.SpacesShrink` | tools/szdd.py:34-79 | The stream of 18 times m spaces has 14 + 2 m bytes and one for every eight matches. |
| `SzddChoice.EighteenSpaces` | tools/szdd.py:34-79 | Behind the header of eighteen spaces there are the bytes 00 EE FF. |
| `SzddMeaning.DecodeExactly` | tools/szdd.py:82-126 | The decoder gives some bytes and a missing character exactly when the header has the fourteen bytes that say so and the bytes behind it spell them: a set flag, lowest bit first, stands for a literal, a clear one for a match at index first + 256 (second / 16) of second % 16 + 3 bytes, where the byte at place j went to index (0xFEE + j) % 4096 and spaces come before place 0. |
| `SzddMeaning.RefusedExactly` | tools/szdd.py:91-112 | A stream with the right header is refused exactly when a flag byte, the byte of a literal or a byte of a match is missing, and for that reason. |
| `SzddMeaning.MatchYields` | tools/szdd.py:105-119 | Byte k of a match at index p is the byte k behind the place whose byte went to p, or a space, also where the match reads its own bytes. |
| `SzddMeaning.FourLetters` | tools/szdd.py:82-126 | A literal and a match of three at index 0xFEE decode to four equal letters. |
| `SzddSearch.CutStreamRejected` | tools/szdd.py:82-126 | No strict prefix of an encoded stream decodes. |
| `SzddSearch.StreamSize` | tools/szdd.py:34-79 | A stream is longer than its input by at most fourteen bytes and one for every eight. |
| `SzddRoundTrip.TrailingBytesIgnored` | tools/szdd.py:91-126 | Bytes behind a complete stream do not change the result. |
| `SzddRoundTrip.ExactLength` | tools/szdd.py:91-126 | A successful decoding yields exactly the announced number of bytes. |
| `SzddRoundTrip.CoversApplies` | tools/szdd.py:47-60 | Tokens that describe the data reproduce it, also where a match reads bytes it writes itself. |
| `SzddSearch.BestIsLongest` | tools/szdd.py:39-63 | The search returns the nearest of the longest matches among its candidates. |
| `SzddCodec.Predicted` | tools/szdd.py:53-60 | The encoder's two-branch prediction of a match's bytes is what lies that far back in the history the decoder will have. |
| `SzddCodec.RingWrite` | tools/szdd.py:27-32 | Writing one byte keeps the ring buffer equal to the last 4096 bytes of spaces and output. |
| `SzddCodec.Dictionary.AddOutput` | tools/szdd.py:27-32 | The buffer, the cursor and the index move on together: each byte value's set is exactly the places that hold it. |
| `SzddCodec.CopyThrough` | tools/szdd.py:105-121 | A match copied through the ring buffer is the copy from that distance back in the unbounded history, cut at the announced length. |
| `Fat12.EntryRead` | tools/build_distribution.py:61-68 | A 12-bit entry reads back as written. |
| `Fat12.OtherEntry` | tools/build_distribution.py:61-68 | Writing an entry changes no other, although two share a byte. |
| `Fat12.PairRead` | tools/build_distribution.py:61-68 | Two entries are one number of three bytes, the lowest byte first, twelve bits each. |
| `Fat12.SetFat12` | tools/build_distribution.py:61-68 | The two byte updates write exactly that entry. |
| `Fat12.FollowChain` | tools/build_distribution.py:106-107 | Following a linked run of clusters yields the run, in order, and stops at its end mark. |
| `DiskLayout.FileRecovered` | tools/build_distribution.py:71-128 | Reading entry i of an image through its chain and cutting at the size field gives the file's bytes, name field and attributes ("FAT Data Structure" and "FAT Directory Structure", FAT32 File System Specification 1.03). |
| `DiskLayout.ClustersDisjoint` | tools/build_distribution.py:101-112 | No cluster is in the chains of two files. |
| `DiskLayout.FreeIsZero` | tools/build_distribution.py:97-107 | A table entry is zero exactly when the cluster is in no file's chain. |
| `DiskFields.BootFields` | tools/build_distribution.py:76-95 | In an image that holds a disk, each parameter stands at its offset with its value (512, 1, 1, 2, 224, 2880, 0xF0, 9, 18, 2, zeros, 0x29), then the serial number, the padded label, the file system's name and 55 AA; everything else of the sector is as given. |
| `DiskFields.DiskFieldsRight` | tools/build_distribution.py:76-128 | The tables are alike and start with F0 FF FF; every entry has its name, attributes, zeros, time 0, the date 1991-06-11, first cluster and size, and its bytes stand at 512 (31 + cluster) with the clusters linked and zeros behind; then comes the label with attribute 8 and no cluster, and nothing else. |
| `DiskFields.FreeSectorEmpty` | tools/build_distribution.py:75-112 | The sectors of free clusters are zeros. |
| `DiskBuild.BuildImage` | tools/build_distribution.py:71-128 | The first fault is reported; otherwise the image holds the disk described, with equal tables, and its length is that of a disk exactly when the label fits. |
| `DiskBuild.LongLabel` | tools/build_distribution.py:93-126 | With a label of twelve characters nothing is refused, and the image is one byte longer than a disk. |
| `DiskBuild.Accepted` | tools/build_distribution.py:72-105 | A disk is built exactly when the boot sector, the number of files, the serial number, the label, every name, every attribute and the total size are right. |
| `DiskBuild.StoreFile` | tools/build_distribution.py:106-112 | The sector loop appends one chain to the table and writes the file's bytes as one run, outside the tables and the directory. |
| `DiskBuild.FilledMore` | tools/build_distribution.py:101-113 | Storing one more file leaves the boot sector, tables and directory alone and keeps what is stored. |
| `DiskBuild.WriteBoot` | tools/build_distribution.py:76-95 | The sequence of patches yields the boot sector `BootSector` describes; `DiskFields.BootFields` gives its parameters at their offsets. |
| `DiskBuild.WriteTables` | tools/build_distribution.py:123-127 | Both tables and the directory are in their places, and the data area is untouched. |
| `DiskNames.NameShown` | tools/build_distribution.py:42-48 | A stored name field shows the upper-cased name exactly when that name does not end in its dot and neither part ends in a space. |
| `DiskNames.NameAccepted` | tools/build_distribution.py:42-48 | A name is accepted exactly when it has no slash or backslash and, upper-cased, is ASCII with one to eight characters before its first dot and at most three behind. |
| `DiskNames.FieldFilled` | tools/build_distribution.py:48 | Each byte of the field is the character of its part at that place, or a space. |
| `DiskNames.NameRestored` | tools/build_distribution.py:51-58 | The missing character put back for the underscore gives the upper-cased destination exactly when that does not end in its first dot. |
| `DiskNames.LastReplaced` | tools/build_distribution.py:51-58 | The stored name is the upper-cased destination, without a dot at its end if that is its only one, with its last character replaced by an underscore; that character is the missing one, and without any character there is an error. |
| `DiskNames.DotLost` | tools/build_distribution.py:51-58 | The destination "README." is stored as "READM_" and does not come back. |
| `DiskNames.StoredNameShown` | tools/build_distribution.py:42-58 | What the disk shows for a compressed file, with the missing character put back, is the upper-cased destination exactly when that has no dot, or an extension behind its first dot and no space before it. |
| `DiskNames.SpaceLost` | tools/build_distribution.py:42-58 | The destination "A .TXT" is accepted and stored, but the name shown does not give it back. |
| `MediaPacking.CompressFiles` | tools/build_distribution.py:157-166 | All files are compressed under their media names, or the first fault, a duplicate included, is reported. |
| `MediaPacking.SourcesAccepted` | tools/build_distribution.py:157-166 | Nothing is refused exactly when no destination is used twice and every file can be compressed. |
| `MediaPacking.SecondDisk` | tools/build_distribution.py:157-182 | The first fault among the sources or of the disk is reported; otherwise the disk is built. Its boot sector has the given code, the label MSDOS5_2 and the serial number 0x05000002, and so does its label entry. For each compressed entry, an ordinary file with attribute 0x20, reading it through the disk's table and decoding it gives the original bytes and the missing character of its destination, and that character put into the name the disk shows gives the destination back exactly under the condition above. The other files are there with their names, attributes and bytes. |
| `Permutations.NextImmediate` | watcom/h/_algsort.h:450-474 | The result is greater, has the same elements, and no arrangement of them lies strictly between (section 25.3.9 of ISO/IEC 14882:2003); duplicates and equivalent elements allowed. |
| `Permutations.NextExists` | watcom/h/_algsort.h:450-474 | True is returned exactly when a greater arrangement exists; otherwise the range is left sorted. |
| `Permutations.PreviousInverts` | watcom/h/_algsort.h:488-512 | The previous permutation of the next one is the range as it was. |
| `PermutationSteps.NextPermutation` | watcom/h/_algsort.h:450-474 | The loops compute that step in place and touch nothing outside the range. |
| `PermutationSteps.PrevPermutation` | watcom/h/_algsort.h:488-512 | The loops compute the step of the opposite order in place. |
| `PermutationSteps.Reverse` | watcom/h/_algmut.h:419-429 | The range is reversed, and nothing else changes. |
| `QuickSorting.Sort` | watcom/h/_algsort.h:139-143 | The range becomes sorted, is a permutation of what it was, and nothing outside changes, for every strict weak order (section 25.3.1.1 of ISO/IEC 14882:2003). |
| `QuickSorting.QuickSort` | watcom/h/_algsort.h:92-121 | Sorts any range by recursion on two ranges that are both strictly smaller. |
| `QuickSorting.Scan` | watcom/h/_algsort.h:110-116 | The unguarded scans stay inside the range and stop at elements that may be exchanged. |
| `QuickSorting.Partition` | watcom/h/_algsort.h:105-118 | The pivot ends up with nothing after it on its left and nothing before it on its right. |
| `QuickSorting.Med3` | watcom/h/_algsort.h:71-86 | The median is planted next to the right end, with a sentinel at each end. |
| `QuickSorting.InsertionSort` | watcom/h/_algsort.h:45-68 | Sorts short ranges, keeping all elements. |
| `Heaps.Heapify` | watcom/h/_algsort.h:203-222 | A broken root is repaired whose subtrees are heaps, whatever comes before it. |
| `Heaps.PushHeap` | watcom/h/_algsort.h:229-243 | The last element joins the heap; an empty range is refused (section 25.3.6 of ISO/IEC 14882:2003). |
| `Heaps.PopHeap` | watcom/h/_algsort.h:258-270 | The root, which no element comes after, moves to the end and the rest is a heap. |
| `Heaps.MakeHeap` | watcom/h/_algsort.h:284-295 | Any array becomes a heap of the same elements. |
| `Heaps.SortHeap` | watcom/h/_algsort.h:309-323 | A heap becomes a sorted array of the same elements. |
| `Heaps.RootLast` | watcom/h/_algsort.h:258-270 | No element of a heap comes after its root. |
| `Heaps.BinarySearch` | watcom/h/_algsort.h:148-177 | In a sorted range the search succeeds exactly when some element is equivalent to the value. |
| `DbcsSearch.FirstFound` | src/INC/OWCOMSUB.C:46-62 | The forward search finds the first place, at a character boundary, where the pattern stands, and nothing exactly when there is none; a trail byte never matches. |
| `DbcsSearch.LastFound` | src/INC/OWCOMSUB.C:64-81 | The backward variant finds the last such place. |
| `DbcsSearch.ComSubstr` | src/INC/OWCOMSUB.C:83-109 | The scan over the NUL-terminated buffer returns that place for any pattern. |
| `DbcsSearch.ComStrchr` | src/INC/OWCOMSUB.C:46-62 | The same for one byte, and the end for NUL. |
| `DbcsSearch.ComStrrchr` | src/INC/OWCOMSUB.C:64-81 | The last place of one byte, and the end for NUL. |
| `RootPaths.RootPath` | src/INC/ERRTST.C:190-268 | The buffer ends up with the full path `FullPath` of the argument, and an error is returned exactly when there is none; `PathRelative` says what that path is, and the fold how it is edited in place. |
| `PathRelative.RelativePath` | src/INC/ERRTST.C:200-219 | With ordinary lead bytes, an argument without a drive that does not start with a backslash gives the path of the current directory's segments and then its own on the current drive, and an error exactly when there is no current directory or ".." leads above the root. |
| `PathRelative.DrivePath` | src/INC/ERRTST.C:200-219 | The same for a named drive, with that drive's directory. |
| `PathRelative.RootedPath` | src/INC/ERRTST.C:200-213 | An argument from the root gives the path of its own segments, whatever the current directories are. |
| `PathRelative.ChainSplit` | src/INC/ERRTST.C:215-219 | The segments of a text behind another are those of both, unless a lone lead byte at the end of the first takes the separator for its trail byte; then the two segments around it are one. |
| `PathRelative.FileInDos` | src/INC/ERRTST.C:190-268 | On drive C in the directory DOS, the argument FILE is C:\DOS\FILE. |
| `RootPaths.Canonicalize` | src/INC/ERRTST.C:224-262 | The loop ends, its measure being the length of what is left, and computes the fold over the text, for every set of lead bytes. |
| `PathText.FoldsAlike` | src/INC/ERRTST.C:224-262 | The fold over the text, which looks for separators anew in what is left, is the fold over the list of segments, behind any prefix that a separator may follow; this needs a backslash that is not a lead byte, since otherwise separators are seen only at the very end. |
| `RootPaths.FindLastStart` | src/INC/ERRTST.C:248-253 | The repeated search over the cut-off text finds the start of the element kept last. |
| `PathFold.FoldFails` | src/INC/ERRTST.C:246-254 | The fold fails exactly when somewhere more segments are dropped than were kept before. |
| `PathFold.SplitJoined` | src/INC/ERRTST.C:226-262 | Splitting loses nothing: the segments joined again are the text. |
| `PathFold.CanonicalFixed` | src/INC/ERRTST.C:190-268 | A canonical path has no "." and no ".." segment and is its own canonical form. |
| `PathFixed.FullPathFixed` | src/INC/ERRTST.C:190-268 | Applied to its own result, under any current drive and directories and any set of lead bytes, the function returns it unchanged, for every argument that meets the condition of the next row; all arguments with another drive letter than the backslash do. |
| `PathFixed.FixedExactly` | src/INC/ERRTST.C:190-268 | For every argument and every set of lead bytes, the result is returned unchanged under all current drives and directories exactly when the argument's drive letter is not a backslash, or no ".." drops the colon and what belongs to it, or a segment that can stand for it is kept in its place in the end. |
| `PathFixed.Bottom` | src/INC/ERRTST.C:226-262 | Which segment is at the bottom of what the fold keeps, told from how many are kept after each segment. |
| `PathFixed.BackslashNotFixed` | src/INC/ERRTST.C:200-257 | The argument \:\..\A gives a path that is not its own full path. |
| `PathCanonical.CanonicalExactly` | src/INC/ERRTST.C:200-257 | For every drive letter, path and set of lead bytes, the result is the canonical path exactly under a condition on the segments of the argument: with ordinary lead bytes, that the drive letter is not a backslash, or ".." never reaches above the root, or reaches two levels above it. |
| `PathCanonical.LeadExactly` | src/INC/ERRTST.C:224-262 | For all drive letters but the backslash and all paths the result is canonical exactly when neither the backslash nor the colon is a lead byte. |
| `PathCanonical.BackslashDrive` | src/INC/ERRTST.C:200-257 | The argument \:\.. succeeds with an empty path, although there is nothing canonical for it. |
| `PartitionTable.SortPartTable` | src/SELECT/GET_STAT.C:770-824 | The indices end up a permutation in which no exchange is left to do, given compatible entries. |
| `PartitionTable.EndsExactly` | src/SELECT/GET_STAT.C:786-822 | Some pass makes no exchange exactly when no unused entry ends behind a used one. |
| `PartitionTable.NeverEnds` | src/SELECT/GET_STAT.C:786-822 | With incompatible entries every pass makes an exchange. |
| `PartitionTable.StaleEntry` | src/SELECT/GET_STAT.C:345-372 | The boot record bytes of a cleared entry before a partition that ends at a lower cylinder give entries with which every pass makes an exchange. |
| `PartitionTable.InversionsSwapped` | src/SELECT/GET_STAT.C:795-803 | An exchange removes exactly one inversion. |
| `PartitionTable.SettledSorted` | src/SELECT/GET_STAT.C:791-796 | When no exchange is left, unused entries come first and the ends do not fall. |
| `FreeSpace.FindFreeSpace` | src/SELECT/GET_STAT.C:527-660 | The table shows the gaps before, between and behind the used entries with their sizes, and zeros after them; the size returned is that of the entry the search for the largest ends at, whatever its unassigned variables hold. |
| `FreeSpace.GapFields` | src/SELECT/GET_STAT.C:547-640 | Every gap shown has the size of its own cylinders, and a nonempty one ends at its start plus its cylinders less one, counting in words. |
| `FreeSpace.GapEnds` | src/SELECT/GET_STAT.C:547-640 | With partitions one behind the other no word overflows there. |
| `FreeSpace.LastUsedAt` | src/SELECT/GET_STAT.C:569-621 | The search for the largest gap falls back to the number of the last used entry in order. |
| `FreeSpace.LargestReported` | src/SELECT/GET_STAT.C:645-657 | The size reported is that of the first largest gap exactly when the search starts with less than its cylinders, or the entry with the number of the last partition has the same size. |
| `FreeSpace.StrayMaximum` | src/SELECT/GET_STAT.C:645-657 | Behind one partition 44 megabytes are free; they are reported exactly when the search starts with less than 90, and otherwise none are. |
| `FreeSpace.MegabytesExactly` | src/SELECT/GET_STAT.C:1089-1108 | The size in megabytes is right exactly when the tracks fit in 16 bits and the bytes in 32, or a track has no sectors. |
| `FreeSpace.MegabytesLost` | src/SELECT/GET_STAT.C:1089-1108 | For 1024 cylinders, 64 heads and 63 sectors the size is zero instead of 2016. |
| `FreeSpace.CylindersTiled` | src/SELECT/GET_STAT.C:566-640 | With disjoint partitions on the disk every cylinder lies in exactly one gap or partition. |

## Left out

- BuildImage: for a label longer than eleven characters only the length of the image is stated, because the image is then not a disk; where the overlong directory falls is not modelled.
- SecondDisk: the texts of PACKING.LST and SETUP.DAT are parameters, because their contents are formatted listings and digests.
- SortPartTable: asks for compatible entries, because otherwise the source does not return; `EndsExactly` is the condition.
- FindFreeSpace: partitions that share a cylinder get a gap of no space, as in the source, but the tiling theorem is about disjoint ones.
- RootPath: asks for a buffer that is large enough, as the source's own warning does.
- Heapify, PushHeap, PopHeap, MakeHeap and SortHeap: a range is the first n places of an array.
- Copy: allocation failures in the middle of a copy, and the clean-up after them.
- Allocation failures and exceptions in the other containers' operations, and `get_allocator`.
- The colour bit inside the parent pointer.
- Range insertion, assignment, the self-check and the multi-element container of `watcom/h/_rbtree.h`: folds over operations modelled here, or list bookkeeping.
- Counts and positions are unbounded; a C++ `int` would overflow only beyond the address space.
- The order of candidates in the SZDD search is obtained by a counting loop with the specification of the library sort.
- `find_ext_free_space`, the extended partition chain, and the device-driven parts of `src/SELECT`.
- `fPathErr`, `testkanj`, `getdrv` and `curdir` in `src/INC/ERRTST.C`: their results are parameters.
- Argument parsing, file input and output, manifests and digests of the tools.
